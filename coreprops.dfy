/** The metadata scrub of `arm` (docpatch.py:139-168). docProps/core.xml is abstracted
    as its elements in document order, each with a qualified name and optional text;
    `root.xpath('//q')[0]` is the first element with that name. */
module CoreProperties {
  import opened Wrappers

  /** A qualified name as the XPath queries match it: namespace URI and local name. */
  datatype QName = QName(namespace: string, local: string)

  /** One element; `text` is `None` for an element without text, as lxml reports it. */
  datatype Element = Element(name: QName, text: Option<string>)

  const DcNamespace: string := "http://purl.org/dc/elements/1.1/"
  const CpNamespace: string := "http://schemas.openxmlformats.org/package/2006/metadata/core-properties"
  const DctermsNamespace: string := "http://purl.org/dc/terms/"

  const Creator: QName := QName(DcNamespace, "creator")
  const LastModifiedBy: QName := QName(CpNamespace, "lastModifiedBy")
  const Keywords: QName := QName(CpNamespace, "keywords")
  const Description: QName := QName(DcNamespace, "description")
  const Created: QName := QName(DctermsNamespace, "created")
  const Modified: QName := QName(DctermsNamespace, "modified")

  /** `user_name`, written into creator and lastModifiedBy. */
  const UserName: string := "Anonymous"
  /** The text written into keywords and description. */
  const Placeholder: string := "None"

  /** The first position at or after `from` holding an element named `q`. */
  function FirstFrom(es: seq<Element>, q: QName, from: nat): (r: Option<nat>)
    requires from <= |es|
    ensures r.Some? ==> from <= r.value < |es| && es[r.value].name == q
    ensures r.Some? ==> forall j :: from <= j < r.value ==> es[j].name != q
    ensures r.None? ==> forall j :: from <= j < |es| ==> es[j].name != q
    decreases |es| - from
  {
    if from == |es| then None
    else if es[from].name == q then Some(from)
    else FirstFrom(es, q, from + 1)
  }

  /** The position of `root.xpath('//q')[0]`, or `None` when the query finds nothing. */
  function FirstIndex(es: seq<Element>, q: QName): (r: Option<nat>)
    ensures r.Some? ==> r.value < |es| && es[r.value].name == q
    ensures r.Some? ==> forall j :: 0 <= j < r.value ==> es[j].name != q
    ensures r.None? ==> forall j :: 0 <= j < |es| ==> es[j].name != q
  {
    FirstFrom(es, q, 0)
  }

  /** Lookups depend only on the names: two element lists with the same names in the same
      order find every name at the same place. */
  lemma FirstIndexByNames(es: seq<Element>, fs: seq<Element>, q: QName)
    requires |es| == |fs|
    requires forall k :: 0 <= k < |es| ==> es[k].name == fs[k].name
    ensures FirstIndex(es, q) == FirstIndex(fs, q)
  {
    var a, b := FirstIndex(es, q), FirstIndex(fs, q);
    if a.Some? && b.Some? {
      assert !(a.value < b.value) && !(b.value < a.value);
    }
  }

  /** `node = root.xpath('//q'); if node: node[0].text = t`. */
  function SetFirstText(es: seq<Element>, q: QName, t: string): seq<Element> {
    match FirstIndex(es, q)
    case Some(i) => es[i := Element(q, Some(t))]
    case None => es
  }

  /** The four rewrites of docpatch.py:146-159, in the source's order. */
  function Scrubbed(es: seq<Element>): seq<Element> {
    var a := SetFirstText(es, Creator, UserName);
    var b := SetFirstText(a, LastModifiedBy, UserName);
    var c := SetFirstText(b, Keywords, Placeholder);
    SetFirstText(c, Description, Placeholder)
  }

  /** What the scrub should leave at position `k`, stated position by position: the first
      creator and the first lastModifiedBy say Anonymous, the first keywords and the
      first description say None, and every other element keeps its text. */
  function ScrubbedText(es: seq<Element>, k: nat): Option<string>
    requires k < |es|
  {
    if FirstIndex(es, Creator) == Some(k) || FirstIndex(es, LastModifiedBy) == Some(k) then Some(UserName)
    else if FirstIndex(es, Keywords) == Some(k) || FirstIndex(es, Description) == Some(k) then Some(Placeholder)
    else es[k].text
  }

  /** One rewrite keeps every name where it was and changes at most the text of the first
      element named `q`. */
  lemma SetFirstTextSpec(es: seq<Element>, q: QName, t: string)
    ensures |SetFirstText(es, q, t)| == |es|
    ensures forall k :: 0 <= k < |es| ==> SetFirstText(es, q, t)[k].name == es[k].name
    ensures forall k :: 0 <= k < |es| ==>
      SetFirstText(es, q, t)[k].text == (if FirstIndex(es, q) == Some(k) then Some(t) else es[k].text)
    ensures forall p :: FirstIndex(SetFirstText(es, q, t), p) == FirstIndex(es, p)
  {
    forall p ensures FirstIndex(SetFirstText(es, q, t), p) == FirstIndex(es, p) {
      FirstIndexByNames(SetFirstText(es, q, t), es, p);
    }
  }

  /** The scrub agrees with the position-by-position description: no element is created,
      removed or renamed, and only the four first occurrences change text. */
  lemma ScrubbedSpec(es: seq<Element>)
    ensures |Scrubbed(es)| == |es|
    ensures forall k :: 0 <= k < |es| ==> Scrubbed(es)[k].name == es[k].name
    ensures forall k :: 0 <= k < |es| ==> Scrubbed(es)[k].text == ScrubbedText(es, k)
  {
    var a := SetFirstText(es, Creator, UserName);
    var b := SetFirstText(a, LastModifiedBy, UserName);
    var c := SetFirstText(b, Keywords, Placeholder);
    SetFirstTextSpec(es, Creator, UserName);
    SetFirstTextSpec(a, LastModifiedBy, UserName);
    SetFirstTextSpec(b, Keywords, Placeholder);
    SetFirstTextSpec(c, Description, Placeholder);
  }

  /** Every lookup gives the same answer after the scrub: an absent field stays absent,
      and no element is invented. */
  lemma ScrubbedLookups(es: seq<Element>, q: QName)
    ensures FirstIndex(Scrubbed(es), q) == FirstIndex(es, q)
  {
    ScrubbedSpec(es);
    FirstIndexByNames(Scrubbed(es), es, q);
  }

  /** Scrubbing twice gives what scrubbing once gives. */
  lemma ScrubIdempotent(es: seq<Element>)
    ensures Scrubbed(Scrubbed(es)) == Scrubbed(es)
  {
    var once := Scrubbed(es);
    ScrubbedSpec(es);
    ScrubbedSpec(once);
    forall q ensures FirstIndex(once, q) == FirstIndex(es, q) {
      ScrubbedLookups(es, q);
    }
    assert forall k :: 0 <= k < |once| ==> Scrubbed(once)[k] == once[k];
  }

  /** `(created_time[0].text, last_modified_time[0].text)`, or `None` when either query
      finds nothing and the `[0]` raises IndexError. */
  function Timestamps(es: seq<Element>): Option<(Option<string>, Option<string>)> {
    match (FirstIndex(es, Created), FirstIndex(es, Modified))
    case (Some(c), Some(m)) => Some((es[c].text, es[m].text))
    case _ => None
  }

  /** The scrub reads the timestamps and never changes them. */
  lemma ScrubKeepsTimestamps(es: seq<Element>)
    ensures Timestamps(Scrubbed(es)) == Timestamps(es)
  {
    ScrubbedSpec(es);
    ScrubbedLookups(es, Created);
    ScrubbedLookups(es, Modified);
  }

  /** The parsed tree of docProps/core.xml, whose elements lxml updates in place. */
  class CoreTree {
    var elements: seq<Element>

    /** `lxml.etree.parse(core_xml_loc)`. */
    constructor (parsed: seq<Element>)
      ensures elements == parsed
    {
      elements := parsed;
    }

    /** `node[0].text = t` for the first element named `q`, if the query finds one. */
    method AssignFirst(q: QName, t: string)
      modifies this
      ensures elements == SetFirstText(old(elements), q, t)
    {
      var found := FirstIndex(elements, q);
      if found.Some? {
        elements := elements[found.value := Element(q, Some(t))];
      }
    }

    /** docpatch.py:144-159: rewrite creator, lastModifiedBy, keywords and description. */
    method Scrub()
      modifies this
      ensures elements == Scrubbed(old(elements))
    {
      AssignFirst(Creator, UserName);
      AssignFirst(LastModifiedBy, UserName);
      AssignFirst(Keywords, Placeholder);
      AssignFirst(Description, Placeholder);
    }

    /** docpatch.py:160-162: the texts of the first created and modified elements;
        `None` when one of them is missing, where the source raises IndexError. */
    method TimestampReport() returns (r: Option<(Option<string>, Option<string>)>)
      ensures r == Timestamps(elements)
    {
      var created := FirstIndex(elements, Created);
      var modified := FirstIndex(elements, Modified);
      if created.None? || modified.None? {
        return None;
      }
      r := Some((elements[created.value].text, elements[modified.value].text));
    }
  }

  /** docProps/core.xml on disk, as the elements it serialises. */
  class CorePropertiesFile {
    var elements: seq<Element>
    var writes: nat

    constructor (initial: seq<Element>)
      ensures elements == initial && writes == 0
    {
      elements := initial;
      writes := 0;
    }

    /** docpatch.py:164-168: the XML declaration and the serialised tree replace the file. */
    method Write(es: seq<Element>)
      modifies this
      ensures elements == es && writes == old(writes) + 1
    {
      elements := es;
      writes := writes + 1;
    }
  }
}
