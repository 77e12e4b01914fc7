# DocPatch in Dafny

DocPatch arms a Word document: it unzips the package, points `word/settings.xml` at a
remotely hosted macro-enabled template, writes the matching relationship into
`word/_rels/settings.xml.rels`, anonymises the creator metadata in `docProps/core.xml`
and zips the result as `armed_` followed by the document name as given (for a bare file
name, a sibling archive in the current directory). This project models the rules inside that
pipeline (all in `docpatch.py`) and proves what they do:

- `text.dfy` (module `Text`): Python's `in`, `str.replace` without a count, `str.count`,
  and `str.split` / `str.join`, which give an identity that holds for every non-empty
  pattern; `Text.ReplaceAllIsJoinOfSplit` proves it of the model.
- `files.dfy` (module `Files`): a text part on disk as a class with its contents and a
  count of write-opens; `inplace_change` as the method `InplaceChange`.
- `fragments.dfy` (module `Fragments`): `settings_value`, `themes_value`, the settings
  patch `arm` applies, and the output archive name.
- `commands.dfy` (module `Commands`): `AliasedGroup.get_command`, prefix resolution of
  subcommand names over click's command dictionary, with Python's string order and
  `sorted`.
- `extension.dfy` (module `Extension`): the advisory check on `doc.split(".")[-1]`.
- `coreprops.dfy` (module `CoreProperties`): `docProps/core.xml` as its elements in
  document order, the lxml tree as a class whose element texts are updated in place,
  and the four field rewrites and the timestamp report.
- `docpatch.dfy` (module `DocPatch`): `arm` over the three parts it edits.
- `wrappers.dfy` (module `Wrappers`): `Option`.

Behaviour of the code worth knowing:

- The settings patch replaces every occurrence of `</w:settings>`, not only the first,
  because `inplace_change` calls `str.replace` without a count.
- A document name without any `.` is classified by the whole name, because
  `split(".")[-1]` returns the whole string. So a file named just `docm` gets no warning
  and one named `docx` gets the red warning; every other dot-free name gets the yellow one.
- The template location is inserted into the relationships part verbatim, without XML
  escaping (`RelationshipsValue`). A location that contains `"` can close the Target
  attribute and add relationships of its own (`Fragments.QuotedLocationAddsRelationship`).
  One with a `<`, or an `&` that does not start an entity reference, makes the part
  ill-formed XML.
- When `dcterms:created` or `dcterms:modified` is missing, the `[0]` of docpatch.py:162
  raises IndexError. It comes after the settings and relationships parts were written
  and before core.xml is written, so `Arm` ends in `TimestampMissing` with core.xml
  unchanged.

## Model

| member | source | states |
|---|---|---|
| Text.CountZeroIffAbsent | docpatch.py:28-33 | the membership test `old_string not in s` fails exactly when `replace` has no occurrence to replace |
| Text.ReplaceAllAbsent | docpatch.py:28-30 | when the marker does not occur, `replace` would return the text unchanged |
| Text.ReplaceAllIsJoinOfSplit | docpatch.py:33 | `s.replace(p, n)` equals `n.join(s.split(p))`: every non-overlapping occurrence is replaced, not only the first |
| Text.JoinSplit | docpatch.py:33 | the pieces between the occurrences, joined by the pattern, give the original text back |
| Text.SplitPiecesFree | docpatch.py:33 | no piece between replaced occurrences still contains the pattern |
| Text.SplitCount | docpatch.py:33 | the number of replacements is `str.count` of the pattern |
| Text.ReplaceAllLength | docpatch.py:33 | the replaced text is `count * (len(new) - len(old))` longer than the original |
| Text.ReplaceAllTrailing | docpatch.py:33 | a border-free pattern at the very end is replaced there, and the rest is replaced as if it were absent |
| Files.TextFile.InplaceChange | docpatch.py:24-35 | marker absent: contents unchanged, the file is not rewritten, false is returned; marker present: contents become the all-occurrences replacement, one write, true |
| Files.TextFile.Write | docpatch.py:129-132 | opening with 'w' and writing replaces the whole contents |
| Fragments.SettingsValueShape | docpatch.py:95 | `settings_value` is the attachedTemplate element referencing `rId1` followed by the `</w:settings>` marker it replaces |
| Fragments.MarkerBorderFree | docpatch.py:127 | two occurrences of `</w:settings>` can never overlap |
| Fragments.PatchSettingsAbsent | docpatch.py:127 | a settings part without the marker is left as it is |
| Fragments.PatchSettingsTrailing | docpatch.py:127 | a settings part ending in the marker still ends in it, immediately preceded by `<w:attachedTemplate r:id="rId1"/>`; with no other marker that element is the only change |
| Fragments.PatchSettingsLength | docpatch.py:127 | every marker gains exactly one attachedTemplate element |
| Fragments.PatchSettingsNotIdempotent | docpatch.py:127 | the patched part still contains the marker, and patching it again changes it again |
| Fragments.RelationshipsValueIsSingleRelationship | docpatch.py:91-94 | as text, `themes_value` is the serialisation of a relationships document with one relationship: Id `rId1`, Type attachedTemplate, TargetMode External, Target the server string |
| Fragments.QuotedLocationAddsRelationship | docpatch.py:93-94 | because the location is not escaped, one that closes the Target attribute makes the text the serialisation of a two-relationship document, the second relationship chosen by the location |
| Fragments.TemplateTargetRoundTrip | docpatch.py:91-94 | as text, cutting the fixed head and tail off the written relationships part gives exactly the supplied template location |
| Fragments.RelationshipsValueInjective | docpatch.py:91-94 | different template locations give different relationships parts |
| Fragments.OutputNameRoundTrip | docpatch.py:172 | the archive is `armed_` followed by the document name, which can be recovered from it |
| Commands.StrLeTotal | docpatch.py:58 | Python's string order compares any two strings |
| Commands.StrLeTransitive | docpatch.py:58 | Python's string order is transitive |
| Commands.StrLeAntisymmetric | docpatch.py:58 | two strings each ordered before the other are equal |
| Commands.SortSpec | docpatch.py:58 | `sorted` returns an ordered permutation of its argument |
| Commands.SortOfSorted | docpatch.py:58 | `sorted` of an ordered list is that list |
| Commands.SortDistinct | docpatch.py:58 | `sorted` of a list without repetitions has none |
| Commands.FilterSpec | docpatch.py:52-53 | the comprehension keeps exactly the names starting with the input, in their order, without repetition |
| Commands.LookupSpec | docpatch.py:49 | the dictionary lookup finds a name exactly when a registered command has it, and returns that command |
| Commands.ListCommandsSpec | docpatch.py:52 | the listed commands are the registered names, sorted, each once |
| Commands.MatchesSpec | docpatch.py:52-53 | the matches are the registered names with the prefix, sorted and distinct, so sorting them again changes nothing |
| Commands.GetCommandExact | docpatch.py:49-51 | an exact name returns its command even when other names share the prefix |
| Commands.GetCommandNotFound | docpatch.py:52-55 | the result is None exactly when no registered name starts with the input |
| Commands.GetCommandUnique | docpatch.py:56-57 | no exact name and a single name with the prefix: that command is returned |
| Commands.GetCommandAmbiguous | docpatch.py:58 | no exact name and two or more with the prefix: failure with "Too many matches: " and the matches joined by ", " in sorted order |
| Extension.LastFieldSpec | docpatch.py:99 | `split(".")[-1]` is the longest suffix without a `.`: the whole name, or what follows the last `.` |
| Extension.LastFieldAfterDot | docpatch.py:99 | whatever precedes the last `.` does not affect the field |
| Extension.NoDotIsWhole | docpatch.py:99 | a name without `.` is its own last field |
| Extension.ClassifyByLastField | docpatch.py:99-106 | only the text after the last `.` decides among no warning, the docx warning and the generic warning |
| Extension.ClassifyBareName | docpatch.py:99-106 | a dot-free name is classified as if it were the extension itself |
| CoreProperties.FirstIndex | docpatch.py:144 | `xpath('//q')[0]` is the first element with that qualified name in document order, and None means no element has it |
| CoreProperties.FirstIndexByNames | docpatch.py:144-161 | lookups depend only on the element names, not their texts |
| CoreProperties.SetFirstTextSpec | docpatch.py:146-148 | one rewrite changes only the text of the first element with the name, if any, and keeps every name in place |
| CoreProperties.ScrubbedSpec | docpatch.py:144-159 | after the scrub, first creator and first lastModifiedBy say Anonymous, first keywords and first description say None, every other element keeps its text, and no element is added, removed or renamed |
| CoreProperties.ScrubbedLookups | docpatch.py:144-159 | an absent field stays absent and a present one stays where it was |
| CoreProperties.ScrubIdempotent | docpatch.py:144-159 | scrubbing twice gives the same elements as scrubbing once |
| CoreProperties.ScrubKeepsTimestamps | docpatch.py:160-162 | the created and modified texts are the same before and after the scrub |
| CoreProperties.CoreTree.AssignFirst | docpatch.py:146-148 | the tree's elements become the one-field rewrite of the old elements |
| CoreProperties.CoreTree.Scrub | docpatch.py:144-159 | the tree's elements become the scrub of the old elements |
| CoreProperties.CoreTree.TimestampReport | docpatch.py:160-162 | the report is `Timestamps` of the tree: present exactly when both a created and a modified element exist, with the texts of the first of each |
| CoreProperties.CorePropertiesFile.Write | docpatch.py:164-168 | the serialised tree replaces the contents of core.xml |
| DocPatch.Arm | docpatch.py:80-172 | the advice is the extension outcome and never stops the run; settings get the patch (unchanged without the marker); the relationships part is replaced by `themes_value`; with both timestamps core.xml gets the scrub and the result names `armed_` + doc, without them core.xml is untouched |

## Left out

- Unzipping the document and zipping the result (docpatch.py:119-124, 172-175): archive
  I/O and the directory walk. Only the output name is modelled.
- Creating, entering and deleting the fixed working directory (docpatch.py:108-116,
  170-179): filesystem side effects. The name clash between concurrent runs is out of
  scope.
- A failed extraction or directory creation is only reported and the run goes on; the
  parts are then missing or stale. Reading a missing settings.xml or core.xml fails, and
  that failure is not modelled: those two parts are given as existing files. Mode `'w'`
  creates a missing settings.xml.rels, which `Files.TextFile.Write` covers.
- Files.TextFile.InplaceChange: `contents` is the text `open().read()` returns, decoded in
  the locale's encoding with universal newlines, not the bytes on disk. On POSIX the
  rewrite writes `\n` line endings back, so a part with `\r\n` or `\r` line endings also changes
  outside the marker. A file the locale cannot decode raises an error, which is not
  modelled. The same view applies to `Files.TextFile.Write`.
- Fragments.RelationshipsValueIsSingleRelationship: holds of the text only. No XML
  parser is modelled, so the model does not promise that an XML reader sees one
  relationship with exactly that Target; a location containing `"`, `<` or `&` can
  break that.
- Fragments.TemplateTargetRoundTrip: holds of the text only. It is not an XML reading of
  the Target attribute, which would differ for a location that needs escaping.
- Fragments.OutputName: the prefix goes in front of the whole document name, directories
  included, and the archive is created relative to the parent of the working directory.
  So `docs/r.docm` gives `armed_docs/r.docm`, which can only be created when a directory
  `armed_docs` exists. Creating the archive is not modelled.
- lxml parsing, XPath evaluation and serialisation (docpatch.py:143-168): a foreign
  library. The tree is its element sequence in document order, and a query is "the
  first element with this namespace and local name"; the file keeps that sequence.
- The click group, options, prompts and help text, and every coloured console message:
  presentation. `ctx.fail` becomes the `Failed` result of `Commands.GetCommand`.
- `core_xml_value` (docpatch.py:96-97): it is never written.
- DocPatch.Arm: does not state the repacked archive's contents, because repacking is not
  modelled; it states the three parts and the output name.
