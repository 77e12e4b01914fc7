/** The XML text that `arm` injects into the unpacked document (docpatch.py:91-95),
    the settings patch it applies with `inplace_change` (docpatch.py:127) and the name
    of the armed archive (docpatch.py:172). */
module Fragments {
  import opened Wrappers
  import opened Text

  /** The one relationship id: written into the relationships part and referenced
      from the attached-template element of the settings part. */
  const RelationshipId: string := "rId1"

  /** The closing tag of the settings root element, searched for in settings.xml. */
  const SettingsMarker: string := "</w:settings>"

  /** The element pointing word/settings.xml at the external template. */
  const AttachedTemplateElement: string := "<w:attachedTemplate r:id=\"" + RelationshipId + "\"/>"

  /** `settings_value`, as the source spells it. */
  const SettingsValue: string := "<w:attachedTemplate r:id=\"rId1\"/></w:settings>"

  const XmlDeclaration: string := "<?xml version=\"1.0\" encoding=\"UTF-8\" standalone=\"yes\"?>"
  const RelationshipsNamespace: string := "http://schemas.openxmlformats.org/package/2006/relationships"
  const AttachedTemplateType: string := "http://schemas.openxmlformats.org/officeDocument/2006/relationships/attachedTemplate"
  const ExternalMode: string := "External"

  /** The prefix `arm` gives the repacked archive. */
  const ArmedPrefix: string := "armed_"

  /** The settings replacement is the attached-template element, which names the
      relationship id `rId1`, followed by the marker it replaces. */
  lemma SettingsValueShape()
    ensures SettingsValue == AttachedTemplateElement + SettingsMarker
  {
  }

  /** The marker starts with its only `<` and ends with `>`, so two occurrences never overlap. */
  lemma MarkerBorderFree()
    ensures BorderFree(SettingsMarker)
  {
    forall k | 0 < k < |SettingsMarker|
      ensures SettingsMarker[..k] != SettingsMarker[|SettingsMarker| - k..]
    {
      assert SettingsMarker[..k][0] == '<';
      assert SettingsMarker[|SettingsMarker| - k..][0] == SettingsMarker[|SettingsMarker| - k];
    }
  }

  /** The transform `inplace_change(settings_file_loc, '</w:settings>', settings_value)`
      applies to the contents of word/settings.xml when the marker is present. */
  function PatchSettings(s: string): string {
    ReplaceAll(s, SettingsMarker, SettingsValue)
  }

  /** Without the marker the settings text comes back unchanged. */
  lemma PatchSettingsAbsent(s: string)
    requires !Contains(s, SettingsMarker)
    ensures PatchSettings(s) == s
  {
    ReplaceAllAbsent(s, SettingsMarker, SettingsValue);
  }

  /** A settings text that ends in the marker still ends in it after the patch, and the
      attached-template element stands immediately before it. When the marker occurs
      only at the end, that element is the sole change. */
  lemma PatchSettingsTrailing(t: string)
    ensures PatchSettings(t + SettingsMarker) == PatchSettings(t) + AttachedTemplateElement + SettingsMarker
    ensures !Contains(t, SettingsMarker) ==>
      PatchSettings(t + SettingsMarker) == t + AttachedTemplateElement + SettingsMarker
  {
    MarkerBorderFree();
    ReplaceAllTrailing(t, SettingsMarker, SettingsValue);
    SettingsValueShape();
    ReplaceAllAbsent(t, SettingsMarker, SettingsValue);
  }

  /** Every marker gains one attached-template element. */
  lemma PatchSettingsLength(s: string)
    ensures |PatchSettings(s)| == |s| + Count(s, SettingsMarker) * |AttachedTemplateElement|
  {
    ReplaceAllLength(s, SettingsMarker, SettingsValue);
    SettingsValueShape();
  }

  /** The patch keeps the marker, so running it again injects a second element:
      the settings patch is not idempotent. */
  lemma PatchSettingsNotIdempotent(s: string)
    requires Contains(s, SettingsMarker)
    ensures Contains(PatchSettings(s), SettingsMarker)
    ensures PatchSettings(PatchSettings(s)) != PatchSettings(s)
  {
    SettingsValueShape();
    ReplaceAllPrependNotIdempotent(s, SettingsMarker, AttachedTemplateElement);
  }

  /** `themes_value`: a relationships document built around the template location,
      which is inserted verbatim, without any escaping. The four pieces are the four
      source lines joined by their line continuations. */
  function RelationshipsValue(server: string): string {
    XmlDeclaration
    + "    <Relationships xmlns=\"" + RelationshipsNamespace + "\">"
    + "    <Relationship Id=\"" + RelationshipId + "\" Type=\"" + AttachedTemplateType + "\" "
    + "    Target=\"" + server + "\" TargetMode=\"External\"/></Relationships>"
  }

  /** One entry of a package-relationships document. */
  datatype Relationship = Relationship(id: string, relType: string, target: string, targetMode: string)

  /** A relationship element in the layout the source writes. */
  function RelationshipElement(r: Relationship): string {
    "    <Relationship Id=\"" + r.id + "\" Type=\"" + r.relType + "\"     Target=\"" + r.target
    + "\" TargetMode=\"" + r.targetMode + "\"/>"
  }

  function RelationshipElements(rs: seq<Relationship>): string
    decreases |rs|
  {
    if rs == [] then [] else RelationshipElement(rs[0]) + RelationshipElements(rs[1..])
  }

  /** A relationships document holding the listed relationships. */
  function RelationshipsDocument(rs: seq<Relationship>): string {
    XmlDeclaration + "    <Relationships xmlns=\"" + RelationshipsNamespace + "\">"
    + RelationshipElements(rs) + "</Relationships>"
  }

  /** The attached-template relationship `arm` declares. */
  function TemplateRelationship(server: string): Relationship {
    Relationship(RelationshipId, AttachedTemplateType, server, ExternalMode)
  }

  /** The source's piecewise layout and the one-relationship document agree, whatever
      the pieces are. */
  lemma LayoutsAgree(decl: string, ns: string, id: string, ty: string, server: string)
    ensures decl
      + "    <Relationships xmlns=\"" + ns + "\">"
      + "    <Relationship Id=\"" + id + "\" Type=\"" + ty + "\" "
      + "    Target=\"" + server + "\" TargetMode=\"External\"/></Relationships>"
      == decl + "    <Relationships xmlns=\"" + ns + "\">"
      + ("    <Relationship Id=\"" + id + "\" Type=\"" + ty + "\"     Target=\"" + server
         + "\" TargetMode=\"" + "External" + "\"/>") + "</Relationships>"
  {
    assert "\" " + "    Target=\"" == "\"     Target=\"";
    assert "\" TargetMode=\"External\"/></Relationships>" == "\" TargetMode=\"" + "External" + "\"/>" + "</Relationships>";
  }

  /** As text, the injected relationships part is the serialisation of a document with
      one relationship: id `rId1`, type attachedTemplate, target mode External and the
      template location as target. It is that document as XML only when the location
      needs no escaping (see `QuotedLocationAddsRelationship`). */
  lemma RelationshipsValueIsSingleRelationship(server: string)
    ensures RelationshipsValue(server) == RelationshipsDocument([TemplateRelationship(server)])
    ensures TemplateRelationship(server).id == RelationshipId
    ensures TemplateRelationship(server).target == server
    ensures TemplateRelationship(server).targetMode == "External"
  {
    var r := TemplateRelationship(server);
    assert RelationshipElements([r]) == RelationshipElement(r) + RelationshipElements([]);
    LayoutsAgree(XmlDeclaration, RelationshipsNamespace, RelationshipId, AttachedTemplateType, server);
  }

  /** Concatenation regroups freely: the layout fact behind `ElementsSplit`, over
      arbitrary pieces. */
  lemma RegroupElements(open: string, typeSep: string, targetSep: string, modeSep: string,
                        mode: string, close: string, id0: string, ty0: string, a: string,
                        id: string, relType: string, b: string)
    ensures open + id0 + typeSep + ty0 + targetSep
            + (a + (modeSep + mode + close + open) + id + typeSep + relType + targetSep + b)
            + modeSep + mode + close
            == (open + id0 + typeSep + ty0 + targetSep + a + modeSep + mode + close)
               + (open + id + typeSep + relType + targetSep + b + modeSep + mode + close)
  {
    var head := open + id0 + typeSep + ty0 + targetSep;
    var second := open + id + typeSep + relType + targetSep + b + modeSep + mode + close;
    var mid := id + typeSep + relType + targetSep + b;
    assert a + (modeSep + mode + close + open) + id + typeSep + relType + targetSep + b
        == a + modeSep + mode + close + (open + mid);
    assert (open + mid) + modeSep + mode + close == second;
  }

  /** A target ending in a closing quote and a second element's opening splits one
      relationship element into two, whatever the pieces are. */
  lemma ElementsSplit(id0: string, ty0: string, a: string, id: string, relType: string, b: string)
    ensures RelationshipElement(Relationship(id0, ty0, a + "\" TargetMode=\"External\"/>    <Relationship Id=\"" + id
                                             + "\" Type=\"" + relType + "\"     Target=\"" + b, ExternalMode))
            == RelationshipElement(Relationship(id0, ty0, a, ExternalMode))
               + RelationshipElement(Relationship(id, relType, b, ExternalMode))
  {
    var open, typeSep, targetSep, modeSep, close :=
      "    <Relationship Id=\"", "\" Type=\"", "\"     Target=\"", "\" TargetMode=\"", "\"/>";
    assert "\" TargetMode=\"External\"/>    <Relationship Id=\"" == modeSep + ExternalMode + close + open;
    RegroupElements(open, typeSep, targetSep, modeSep, ExternalMode, close, id0, ty0, a, id, relType, b);
  }

  /** The location is not escaped, so one that closes the Target attribute with `"` can
      append relationships of its own: the written text is then the serialisation of
      a document with two relationships, the second one chosen by the location. */
  lemma QuotedLocationAddsRelationship(a: string, id: string, relType: string, b: string)
    ensures RelationshipsValue(a + "\" TargetMode=\"External\"/>    <Relationship Id=\"" + id
                               + "\" Type=\"" + relType + "\"     Target=\"" + b)
            == RelationshipsDocument([TemplateRelationship(a), Relationship(id, relType, b, ExternalMode)])
  {
    var server := a + "\" TargetMode=\"External\"/>    <Relationship Id=\"" + id
                  + "\" Type=\"" + relType + "\"     Target=\"" + b;
    var first, second := TemplateRelationship(a), Relationship(id, relType, b, ExternalMode);
    RelationshipsValueIsSingleRelationship(server);
    ElementsSplit(RelationshipId, AttachedTemplateType, a, id, relType, b);
    assert RelationshipElements([second]) == RelationshipElement(second) + RelationshipElements([]);
    assert [first, second][1..] == [second];
    assert RelationshipElements([first, second]) == RelationshipElement(first) + RelationshipElements([second]);
    assert RelationshipElements([TemplateRelationship(server)])
        == RelationshipElement(TemplateRelationship(server)) + RelationshipElements([]);
  }

  /** Everything of `themes_value` before the template location. */
  const RelationshipsHead: string :=
    XmlDeclaration
    + "    <Relationships xmlns=\"" + RelationshipsNamespace + "\">"
    + "    <Relationship Id=\"" + RelationshipId + "\" Type=\"" + AttachedTemplateType + "\" "
    + "    Target=\""

  /** Everything of `themes_value` after the template location. */
  const RelationshipsTail: string := "\" TargetMode=\"External\"/></Relationships>"

  /** Reads the template location back out of a relationships part of the injected shape. */
  function TemplateTarget(doc: string): Option<string> {
    if |doc| >= |RelationshipsHead| + |RelationshipsTail|
       && RelationshipsHead <= doc
       && doc[|doc| - |RelationshipsTail|..] == RelationshipsTail
    then Some(doc[|RelationshipsHead|..|doc| - |RelationshipsTail|])
    else None
  }

  /** Cutting the fixed head and tail off the written relationships text yields exactly
      the supplied location. This is a statement about the text, not about an XML
      reading of it. */
  lemma TemplateTargetRoundTrip(server: string)
    ensures TemplateTarget(RelationshipsValue(server)) == Some(server)
  {
    var doc := RelationshipsValue(server);
    assert doc == RelationshipsHead + server + RelationshipsTail;
    assert doc[..|RelationshipsHead|] == RelationshipsHead;
    assert doc[|doc| - |RelationshipsTail|..] == RelationshipsTail;
    assert doc[|RelationshipsHead|..|doc| - |RelationshipsTail|] == server;
  }

  /** Different template locations give different relationships parts. */
  lemma RelationshipsValueInjective(a: string, b: string)
    requires RelationshipsValue(a) == RelationshipsValue(b)
    ensures a == b
  {
    TemplateTargetRoundTrip(a);
    TemplateTargetRoundTrip(b);
  }

  /** `'armed_%s' % document_name`: the name of the repacked archive, taken relative to
      the parent of the working directory. The prefix goes in front of the whole name
      as given, directories included. */
  function OutputName(doc: string): string {
    ArmedPrefix + doc
  }

  /** The document name an armed archive was made from, if the name has that shape. */
  function SourceName(archive: string): Option<string> {
    if ArmedPrefix <= archive then Some(archive[|ArmedPrefix|..]) else None
  }

  /** The output name keeps the input name recoverable: stripping the prefix gives it back. */
  lemma OutputNameRoundTrip(doc: string)
    ensures SourceName(OutputName(doc)) == Some(doc)
    ensures |OutputName(doc)| == |ArmedPrefix| + |doc|
  {
    assert OutputName(doc)[..|ArmedPrefix|] == ArmedPrefix;
    assert OutputName(doc)[|ArmedPrefix|..] == doc;
  }
}
