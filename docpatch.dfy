/** The `arm` command (docpatch.py:80-181) over the three parts it edits. Unzipping,
    the working directory and repacking are not modelled; the parts are given as the
    files they are after extraction. */
module DocPatch {
  import opened Wrappers
  import opened Text
  import opened Files
  import opened Fragments
  import opened Extension
  import opened CoreProperties

  /** How a run ends. `Armed` carries the reported timestamps and the output archive name;
      `TimestampMissing` is the IndexError of docpatch.py:162, raised after the settings and
      relationships parts were written and before core.xml is. Both carry the extension
      advice and whether the settings marker was found. */
  datatype ArmOutcome =
    | Armed(advice: Advice, settingsPatched: bool, created: Option<string>, modified: Option<string>, archive: string)
    | TimestampMissing(advice: Advice, settingsPatched: bool)

  /** `arm(doc, server)` over word/settings.xml, word/_rels/settings.xml.rels and
      docProps/core.xml. */
  method Arm(doc: string, server: string, settings: TextFile, rels: TextFile, core: CorePropertiesFile)
    returns (outcome: ArmOutcome)
    requires settings != rels
    modifies settings, rels, core
    ensures outcome.advice == Classify(doc)
    ensures outcome.settingsPatched == Contains(old(settings.contents), SettingsMarker)
    ensures settings.contents == PatchSettings(old(settings.contents))
    ensures settings.writes == old(settings.writes) + (if outcome.settingsPatched then 1 else 0)
    ensures rels.contents == RelationshipsValue(server) && rels.writes == old(rels.writes) + 1
    ensures outcome.Armed? <==> Timestamps(old(core.elements)).Some?
    ensures outcome.Armed? ==> core.elements == Scrubbed(old(core.elements)) && core.writes == old(core.writes) + 1
    ensures outcome.Armed? ==> Timestamps(old(core.elements)) == Some((outcome.created, outcome.modified))
    ensures outcome.Armed? ==> outcome.archive == OutputName(doc)
    ensures outcome.TimestampMissing? ==> core.elements == old(core.elements) && core.writes == old(core.writes)
  {
    // The extension check only decides which message is printed; the run goes on.
    var advice := Classify(doc);

    ghost var settingsBefore := settings.contents;
    var patched := settings.InplaceChange(SettingsMarker, SettingsValue);
    if !patched {
      PatchSettingsAbsent(settingsBefore);
    }

    rels.Write(RelationshipsValue(server));

    var tree := new CoreTree(core.elements);
    ghost var coreBefore := tree.elements;
    tree.Scrub();
    var stamps := tree.TimestampReport();
    ScrubKeepsTimestamps(coreBefore);
    if stamps.None? {
      return TimestampMissing(advice, patched);
    }
    core.Write(tree.elements);

    outcome := Armed(advice, patched, stamps.value.0, stamps.value.1, OutputName(doc));
  }
}
