/**
 * A repository as the GitHub contents API shows it: every directory listing
 * is either an error or a sequence of entries in API order, and every file
 * either fails to load or yields its parsed content. The two searches of an
 * About folder (`find_about_xml`, `find_preview_image`) are first-match
 * loops over such a listing.
 */
module RepoTree {
  import opened Options
  import opened Text
  import opened Xml
  import opened Manifest

  /**
   * A file's content as the harvester sees it: fetching or UTF-8 decoding
   * failed, or it was fetched and `ET.fromstring` gave a root element
   * (`None` for a parse error).
   */
  datatype FileData = FetchFailed | Fetched(doc: Option<Element>)

  /** One item of a listing, by its `type`: `'file'`, `'dir'`, or anything else (symlink, submodule). */
  datatype Entry =
    | File(name: Str, path: Str, data: FileData)
    | Dir(name: Str, path: Str, listing: Listing)
    | Other(name: Str, path: Str)

  /** What `repo.get_contents(dir_path)` gives: an exception, or the entries. */
  datatype Listing = ListingFailed | Listed(entries: seq<Entry>)

  /**
   * `^preview.*\.(png|jpeg)$` matched against the whole (lowered) name,
   * with `.` not matching a newline; `$` also accepts one trailing newline.
   */
  predicate PreviewPattern(s: Str) {
    PreviewBody(s) || (s != [] && s[|s| - 1] == '\n' && PreviewBody(s[..|s| - 1]))
  }

  predicate PreviewBody(s: Str) {
    && StartsWith(s, "preview")
    && (|| (|s| >= 11 && EndsWith(s, ".png") && '\n' !in s[7..|s| - 4])
        || (|s| >= 12 && EndsWith(s, ".jpeg") && '\n' !in s[7..|s| - 5]))
  }

  /** The two things looked for in an About folder. */
  datatype Target = AboutXml | PreviewImage

  /** The test each search loop applies to an entry; both want `type == 'file'` and compare the lowered name. */
  predicate Matches(t: Target, e: Entry) {
    && e.File?
    && match t
       case AboutXml => Lower(e.name) == "about.xml"
       case PreviewImage => PreviewPattern(Lower(e.name))
  }

  /** No entry of `es` passes the test for `t`. */
  predicate NoneMatch(es: seq<Entry>, t: Target) {
    forall j :: 0 <= j < |es| ==> !Matches(t, es[j])
  }

  /** The position of the first entry matching `t`, or `|es|`. */
  function FirstMatch(es: seq<Entry>, t: Target): (k: nat)
    ensures k <= |es|
    ensures k < |es| ==> Matches(t, es[k])
    ensures NoneMatch(es[..k], t)
  {
    if es == [] || Matches(t, es[0]) then 0
    else
      var k := 1 + FirstMatch(es[1..], t);
      assert es[..k] == [es[0]] + es[1..][..k - 1];
      k
  }

  /** A matching entry the search has not yet passed is the first match. */
  lemma {:induction false} FirstMatchAt(es: seq<Entry>, t: Target, i: nat)
    requires i < |es| && FirstMatch(es, t) >= i && Matches(t, es[i])
    ensures FirstMatch(es, t) == i
  {
  }

  /**
   * The entry a search returns: the first match in listing order, or
   * nothing when there is none or the listing failed (the error is caught).
   */
  function FindFirst(l: Listing, t: Target): (r: Option<Entry>)
    ensures r.Some? ==> l.Listed? && Matches(t, r.value) && r.value in l.entries
    ensures r.None? ==> l.ListingFailed? || NoneMatch(l.entries, t)
    ensures l.Listed? && r.Some? ==>
      exists k :: 0 <= k < |l.entries| && l.entries[k] == r.value && NoneMatch(l.entries[..k], t)
  {
    match l
    case ListingFailed => None
    case Listed(es) =>
      var k := FirstMatch(es, t);
      if k < |es| then Some(es[k]) else (assert es[..k] == es; None)
  }

  /** `find_about_xml`: the about.xml entry of an About folder (the source returns its path). */
  method FindAboutXml(l: Listing) returns (r: Option<Entry>)
    ensures r == FindFirst(l, AboutXml)
  {
    if l.ListingFailed? {
      return None;
    }
    var es := l.entries;
    var i := 0;
    while i < |es|
      invariant 0 <= i <= |es|
      invariant FirstMatch(es, AboutXml) >= i
    {
      var e := es[i];
      if e.File? && Lower(e.name) == "about.xml" {
        FirstMatchAt(es, AboutXml, i);
        return Some(e);
      }
      i := i + 1;
    }
    return None;
  }

  /** `find_preview_image`: the path of the first preview image, or `'N/A'`. */
  method FindPreviewImage(l: Listing) returns (r: Str)
    ensures FindFirst(l, PreviewImage).Some? ==> r == FindFirst(l, PreviewImage).value.path
    ensures FindFirst(l, PreviewImage).None? ==> r == NA
  {
    if l.ListingFailed? {
      return NA;
    }
    var es := l.entries;
    var i := 0;
    while i < |es|
      invariant 0 <= i <= |es|
      invariant FirstMatch(es, PreviewImage) >= i
    {
      var e := es[i];
      if e.File? && PreviewPattern(Lower(e.name)) {
        FirstMatchAt(es, PreviewImage, i);
        return e.path;
      }
      i := i + 1;
    }
    return NA;
  }

  /** The preview path recorded for an About folder. */
  function PreviewPath(l: Listing): Str {
    match FindFirst(l, PreviewImage)
    case Some(e) => e.path
    case None => NA
  }

  /**
   * For a name without line breaks the pattern says exactly: starts with
   * `preview` and ends with `.png` or `.jpeg`.
   */
  lemma {:induction false} PreviewPatternMeaning(s: Str)
    requires '\n' !in s
    ensures PreviewPattern(s) <==> StartsWith(s, "preview") && (EndsWith(s, ".png") || EndsWith(s, ".jpeg"))
  {
    if StartsWith(s, "preview") && EndsWith(s, ".png") {
      DotAfterPrefix(s, ".png");
    }
    if StartsWith(s, "preview") && EndsWith(s, ".jpeg") {
      DotAfterPrefix(s, ".jpeg");
    }
  }

  /** `preview` has no `.`, so a suffix starting with `.` cannot overlap it. */
  lemma {:induction false} DotAfterPrefix(s: Str, suffix: Str)
    requires StartsWith(s, "preview") && EndsWith(s, suffix) && suffix != [] && suffix[0] == '.'
    ensures |s| >= 7 + |suffix|
  {
    assert forall j :: 0 <= j < 7 ==> s[j] == "preview"[j] by {
      assert s[..7] == "preview";
    }
    assert s[|s| - |suffix|] == '.' by {
      assert s[|s| - |suffix|..][0] == suffix[0];
    }
  }

  /** A `.jpg` file is never taken as the preview image, whatever the case of its name. */
  lemma {:induction false} JpgIsNeverPreview(e: Entry)
    requires EndsWith(Lower(e.name), ".jpg")
    ensures !Matches(PreviewImage, e)
  {
    var s := Lower(e.name);
    assert s[|s| - 4..] == ".jpg";
    assert s[|s| - 3] == 'j' && s[|s| - 2] == 'p' && s[|s| - 1] == 'g';
  }

  /** Both searches ignore ASCII case: a name and its lowered form match alike. */
  lemma {:induction false} MatchIgnoresCase(t: Target, name: Str, path: Str, data: FileData)
    ensures Matches(t, File(name, path, data)) == Matches(t, File(Lower(name), path, data))
  {
    var s := Lower(name);
    assert Lower(s) == s by {
      forall i | 0 <= i < |s| ensures Lower(s)[i] == s[i] {
        assert s[i] == LowerChar(name[i]);
      }
    }
  }
}
