/**
 * `generate_xml_string`: the catalog document, a `repositories` root with
 * one `repository` element per record, in record order, each with the nine
 * fields as children in a fixed order. Turning the tree into UTF-8 bytes
 * (`ET.tostring`) is left to a serialiser passed in where the bytes are
 * needed.
 */
module Catalog {
  import opened Options
  import opened Text
  import opened Xml
  import opened Manifest
  import opened Walker

  /**
   * The texts of the `version` elements: one per list item, or, when the
   * versions are the string `'N/A'`, one per character of that string,
   * since the loop iterates over whatever it is given.
   */
  function VersionTexts(v: Versions): (r: seq<Option<Str>>)
    ensures v.NAString? ==> r == [Some("N"), Some("/"), Some("A")]
  {
    match v
    case VersionList(items) => items
    case NAString => [Some([NA[0]]), Some([NA[1]]), Some([NA[2]])]
  }

  /** The `version` children of `supported_versions`, in order. */
  function VersionElements(texts: seq<Option<Str>>): (r: seq<Element>)
    ensures |r| == |texts|
    ensures forall j :: 0 <= j < |r| ==> r[j] == Leaf("version", texts[j])
  {
    if texts == [] then []
    else VersionElements(texts[..|texts| - 1]) + [Leaf("version", texts[|texts| - 1])]
  }

  /**
   * The `repository` element of one record: the nine fields in the fixed
   * order, the id in decimal, and one `version` per version text.
   */
  function RepositoryElement(r: Record): Element {
    Element("repository", None, [
      Leaf("repo_id", Some(NatToString(r.repoId))),
      Leaf("owner", Some(r.owner)),
      Leaf("repo_name", Some(r.repoName)),
      Leaf("mod_root_path", Some(r.modRootPath)),
      Leaf("name", r.name),
      Leaf("description", r.description),
      Leaf("package_id", r.packageId),
      Element("supported_versions", None, VersionElements(VersionTexts(r.versions))),
      Leaf("preview_image", Some(r.previewImage))])
  }

  /** The `repository` elements of the records, in record order. */
  function RepositoryElements(rs: seq<Record>): (es: seq<Element>)
    ensures |es| == |rs|
    ensures forall j :: 0 <= j < |rs| ==> es[j] == RepositoryElement(rs[j])
  {
    MapRecords(rs, RepositoryElement)
  }

  /** `f` applied to each record, in order. */
  function MapRecords(rs: seq<Record>, f: Record -> Element): (es: seq<Element>)
    ensures |es| == |rs|
    ensures forall j :: 0 <= j < |rs| ==> es[j] == f(rs[j])
  {
    if rs == [] then []
    else MapRecords(rs[..|rs| - 1], f) + [f(rs[|rs| - 1])]
  }

  /** The catalog document for a list of records: one `repository` per record, in record order. */
  function CatalogTree(rs: seq<Record>): (root: Element)
    ensures root.tag == "repositories"
    ensures |root.children| == |rs|
    ensures forall j :: 0 <= j < |rs| ==> root.children[j] == RepositoryElement(rs[j])
  {
    Element("repositories", None, RepositoryElements(rs))
  }

  /** Builds the document element by element, as the source does with `SubElement`. */
  method GenerateXmlString(rs: seq<Record>) returns (root: Element)
    ensures root == CatalogTree(rs)
  {
    var repositories: seq<Element> := [];
    for i := 0 to |rs|
      invariant repositories == RepositoryElements(rs[..i])
    {
      var repository := BuildRepository(rs[i]);
      RepositoryElementsSnoc(rs, i);
      repositories := repositories + [repository];
    }
    assert rs[..|rs|] == rs;
    root := Element("repositories", None, repositories);
  }

  /** One iteration of the outer loop: the `repository` element of one record, its versions added one by one. */
  method BuildRepository(r: Record) returns (repository: Element)
    ensures repository == RepositoryElement(r)
  {
    var texts := VersionTexts(r.versions);
    var versions: seq<Element> := [];
    for j := 0 to |texts|
      invariant versions == VersionElements(texts[..j])
    {
      versions := versions + [Leaf("version", texts[j])];
      assert texts[..j + 1][..j] == texts[..j];
    }
    assert texts[..|texts|] == texts;
    repository := Element("repository", None, [
      Leaf("repo_id", Some(NatToString(r.repoId))),
      Leaf("owner", Some(r.owner)),
      Leaf("repo_name", Some(r.repoName)),
      Leaf("mod_root_path", Some(r.modRootPath)),
      Leaf("name", r.name),
      Leaf("description", r.description),
      Leaf("package_id", r.packageId),
      Element("supported_versions", None, versions),
      Leaf("preview_image", Some(r.previewImage))]);
  }

  /** One more record adds its element at the end. */
  lemma {:induction false} RepositoryElementsSnoc(rs: seq<Record>, i: nat)
    requires i < |rs|
    ensures RepositoryElements(rs[..i + 1]) == RepositoryElements(rs[..i]) + [RepositoryElement(rs[i])]
  {
    assert rs[..i + 1][..i] == rs[..i];
  }

  /*
   * Reading a catalog back. A consumer sees every record field as it was,
   * except that versions become the list of `version` texts.
   */

  /** A record as it reads back from the catalog. */
  function AsRead(r: Record): Record {
    Record(r.repoId, r.owner, r.repoName, r.modRootPath, r.name, r.description,
           r.packageId, VersionList(VersionTexts(r.versions)), r.previewImage)
  }

  function AllAsRead(rs: seq<Record>): (r: seq<Record>)
    ensures |r| == |rs|
    ensures forall j :: 0 <= j < |rs| ==> r[j] == AsRead(rs[j])
  {
    if rs == [] then [] else [AsRead(rs[0])] + AllAsRead(rs[1..])
  }

  predicate HasRecordShape(e: Element) {
    && e.tag == "repository"
    && |e.children| == 9
    && e.children[0].tag == "repo_id" && e.children[0].text.Some?
    && e.children[1].tag == "owner" && e.children[1].text.Some?
    && e.children[2].tag == "repo_name" && e.children[2].text.Some?
    && e.children[3].tag == "mod_root_path" && e.children[3].text.Some?
    && e.children[4].tag == "name"
    && e.children[5].tag == "description"
    && e.children[6].tag == "package_id"
    && e.children[7].tag == "supported_versions"
    && e.children[8].tag == "preview_image" && e.children[8].text.Some?
  }

  /** One `repository` element read back into a record, when it has the catalog's shape. */
  function ReadRecord(e: Element): Option<Record> {
    if !HasRecordShape(e) then None
    else
      var c := e.children;
      match ParseNat(c[0].text.value)
      case None => None
      case Some(id) =>
        Some(Record(id, c[1].text.value, c[2].text.value, c[3].text.value,
                    c[4].text, c[5].text, c[6].text,
                    VersionList(Texts(Tagged(c[7].children, "version"))),
                    c[8].text.value))
  }

  function ReadRecords(es: seq<Element>): Option<seq<Record>> {
    if es == [] then Some([])
    else
      match ReadRecord(es[0])
      case None => None
      case Some(r) =>
        match ReadRecords(es[1..])
        case None => None
        case Some(rest) => Some([r] + rest)
  }

  /** A catalog document read back into records. */
  function ParseCatalog(root: Element): Option<seq<Record>> {
    if root.tag != "repositories" then None else ReadRecords(root.children)
  }

  lemma {:induction false} TaggedAll(es: seq<Element>, tag: Str)
    requires forall j :: 0 <= j < |es| ==> es[j].tag == tag
    ensures Tagged(es, tag) == es
  {
    if es != [] {
      TaggedAll(es[1..], tag);
      assert es == [es[0]] + es[1..];
    }
  }

  lemma {:induction false} VersionsReadBack(texts: seq<Option<Str>>)
    ensures Texts(Tagged(VersionElements(texts), "version")) == texts
  {
    TaggedAll(VersionElements(texts), "version");
  }

  lemma {:induction false} RecordReadsBack(r: Record)
    ensures ReadRecord(RepositoryElement(r)) == Some(AsRead(r))
  {
    var e := RepositoryElement(r);
    assert HasRecordShape(e);
    var c := e.children;
    ParseNatToString(r.repoId);
    assert ParseNat(c[0].text.value) == Some(r.repoId);
    VersionsReadBack(VersionTexts(r.versions));
    assert Texts(Tagged(c[7].children, "version")) == VersionTexts(r.versions);
  }

  lemma {:induction false} RecordsReadBack(es: seq<Element>, rs: seq<Record>)
    requires |es| == |rs|
    requires forall j :: 0 <= j < |rs| ==> es[j] == RepositoryElement(rs[j])
    ensures ReadRecords(es) == Some(AllAsRead(rs))
  {
    if rs != [] {
      RecordReadsBack(rs[0]);
      RecordsReadBack(es[1..], rs[1..]);
      assert AllAsRead(rs) == [AsRead(rs[0])] + AllAsRead(rs[1..]);
    }
  }

  /**
   * The catalog holds every record, in order, with every field recoverable;
   * only the versions are flattened to the texts that were written.
   */
  lemma {:induction false} CatalogRoundTrip(rs: seq<Record>)
    ensures ParseCatalog(CatalogTree(rs)) == Some(AllAsRead(rs))
  {
    RecordsReadBack(CatalogTree(rs).children, rs);
  }

  /** Records whose versions are a list come back exactly. */
  lemma {:induction false} CatalogRoundTripExact(rs: seq<Record>)
    requires forall j :: 0 <= j < |rs| ==> rs[j].versions.VersionList?
    ensures ParseCatalog(CatalogTree(rs)) == Some(rs)
  {
    CatalogRoundTrip(rs);
    assert AllAsRead(rs) == rs;
  }

  /**
   * An About folder without an about.xml is published with three versions,
   * `N`, `/` and `A`: the characters of the placeholder string.
   */
  lemma {:induction false} MissingManifestPublishesPlaceholderCharacters(r: Record)
    requires r.versions == NAString
    ensures ParseCatalog(CatalogTree([r])) == Some([AsRead(r)])
    ensures AsRead(r).versions.items == [Some("N"), Some("/"), Some("A")]
  {
    CatalogRoundTrip([r]);
    assert AllAsRead([r]) == [AsRead(r)];
  }
}
