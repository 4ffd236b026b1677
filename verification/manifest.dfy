/**
 * `extract_info_from_xml`: reads name, description, packageId and the
 * supported versions out of a parsed `About/About.xml`. Parsing itself is
 * ElementTree's; here the document arrives already parsed, `None` standing
 * for `ET.ParseError`.
 */
module Manifest {
  import opened Options
  import opened Text
  import opened Xml

  /** The placeholder the harvester writes for anything it could not find. */
  const NA: Str := "N/A"

  /**
   * What ends up in a record's `supported_versions`: normally a list of `li`
   * texts (each possibly Python's `None`), but the STRING `'N/A'` when the
   * About folder holds no about.xml at all.
   */
  datatype Versions = VersionList(items: seq<Option<Str>>) | NAString

  /** `(name, description, package_id, supported_versions)`; a text is `None` where the element is empty. */
  datatype ManifestInfo = ManifestInfo(name: Option<Str>, description: Option<Str>, packageId: Option<Str>, versions: Versions)

  /** The tuple used when there is no about.xml in the About folder. */
  const NoManifest: ManifestInfo := ManifestInfo(Some(NA), Some(NA), Some(NA), NAString)

  /** The tuple used when about.xml does not parse. */
  const Unparsable: ManifestInfo := ManifestInfo(Some(NA), Some(NA), Some(NA), VersionList([]))

  /**
   * `root.find(tag).text if root.find(tag) is not None else 'N/A'`: the text
   * of the first child tagged `tag`, or `'N/A'` when there is none.
   */
  function FieldText(root: Element, tag: Str): (t: Option<Str>)
    ensures (forall j :: 0 <= j < |root.children| ==> root.children[j].tag != tag) ==> t == Some(NA)
    ensures t != Some(NA) ==> exists j :: 0 <= j < |root.children| && root.children[j].tag == tag
    ensures forall k ::
              (0 <= k < |root.children| && root.children[k].tag == tag &&
               forall j :: 0 <= j < k ==> root.children[j].tag != tag)
              ==> t == root.children[k].text
  {
    match Find(root.children, tag)
    case None => Some(NA)
    case Some(e) => e.text
  }

  /** The `li` texts under every `supportedVersions` child, or `[]` when there is none. */
  function SupportedVersions(root: Element): (vs: seq<Option<Str>>)
    ensures Find(root.children, "supportedVersions").None? ==> vs == []
  {
    if Find(root.children, "supportedVersions").Some? then
      PathTexts(Tagged(root.children, "supportedVersions"), "li")
    else
      []
  }

  function ExtractInfoFromXml(doc: Option<Element>): (info: ManifestInfo)
    ensures doc.None? ==> info == Unparsable
    ensures info.versions.VersionList?
    ensures doc.Some? ==> info.name == FieldText(doc.value, "name")
    ensures doc.Some? ==> info.description == FieldText(doc.value, "description")
    ensures doc.Some? ==> info.packageId == FieldText(doc.value, "packageId")
    ensures doc.Some? ==> info.versions.items == SupportedVersions(doc.value)
  {
    match doc
    case None => Unparsable
    case Some(root) =>
      ManifestInfo(
        FieldText(root, "name"),
        FieldText(root, "description"),
        FieldText(root, "packageId"),
        VersionList(SupportedVersions(root)))
  }

  /**
   * Each field is defaulted on its own: deleting every element of one field
   * from a manifest turns that field into `'N/A'` and leaves the other three
   * exactly as they were.
   */
  lemma {:induction false} FieldsDefaultIndependently(root: Element, gone: Str)
    requires gone in {"name", "description", "packageId"}
    ensures var before := ExtractInfoFromXml(Some(root));
            var after := ExtractInfoFromXml(Some(Element(root.tag, root.text, Without(root.children, gone))));
            && (gone == "name" ==> after == before.(name := Some(NA)))
            && (gone == "description" ==> after == before.(description := Some(NA)))
            && (gone == "packageId" ==> after == before.(packageId := Some(NA)))
  {
    var cs := Without(root.children, gone);
    var root' := Element(root.tag, root.text, cs);
    FindWithout(root.children, gone, "supportedVersions");
    TaggedWithout(root.children, gone, "supportedVersions");
    assert SupportedVersions(root') == SupportedVersions(root);
    assert FieldText(root', gone) == Some(NA);
    if gone != "name" {
      FindWithout(root.children, gone, "name");
      assert FieldText(root', "name") == FieldText(root, "name");
    }
    if gone != "description" {
      FindWithout(root.children, gone, "description");
      assert FieldText(root', "description") == FieldText(root, "description");
    }
    if gone != "packageId" {
      FindWithout(root.children, gone, "packageId");
      assert FieldText(root', "packageId") == FieldText(root, "packageId");
    }
  }

  /** With exactly one `supportedVersions` element, the versions are its `li` texts in document order. */
  lemma {:induction false} OneVersionsBlock(root: Element, k: nat)
    requires k < |root.children| && root.children[k].tag == "supportedVersions"
    requires forall j :: 0 <= j < |root.children| && j != k ==> root.children[j].tag != "supportedVersions"
    ensures SupportedVersions(root) == Texts(Tagged(root.children[k].children, "li"))
  {
    var cs := root.children;
    var sv := "supportedVersions";
    assert cs == cs[..k] + [cs[k]] + cs[k + 1..];
    TaggedAppend(cs[..k] + [cs[k]], cs[k + 1..], sv);
    TaggedAppend(cs[..k], [cs[k]], sv);
    TaggedNone(cs[..k], sv);
    TaggedNone(cs[k + 1..], sv);
    assert [cs[k]][1..] == [];
    assert Tagged([cs[k]], sv) == [cs[k]] + Tagged([], sv);
    assert Tagged(cs, sv) == [cs[k]];
    var texts := Texts(Tagged(cs[k].children, "li"));
    assert PathTexts([cs[k]], "li") == texts + PathTexts([], "li");
    assert texts + [] == texts;
  }
}
