/**
 * `search_about_folder_and_extract_info`: a depth-limited, directory-by-
 * directory walk of one repository that turns every folder named `About`
 * (any case) into a record, in pre-order. Errors are caught per call: a
 * directory whose listing fails yields no records, and an error while
 * reading an about.xml ends the loop over that directory, keeping what was
 * collected before it.
 */
module Walker {
  import opened Options
  import opened Text
  import opened Xml
  import opened Manifest
  import opened RepoTree

  /** The deepest `level` whose directory is still listed (`if level > 3: return None`). */
  const MaxLevel: nat := 3

  /** The repository a walk belongs to: `repo.id` and the owner and name from the seed list. */
  datatype RepoRef = RepoRef(id: nat, owner: Str, name: Str)

  /**
   * The 9-tuple appended per About folder: repo id, owner, repo name, mod
   * root path, name, description, package id, supported versions, preview.
   */
  datatype Record = Record(
    repoId: nat, owner: Str, repoName: Str, modRootPath: Str,
    name: Option<Str>, description: Option<Str>, packageId: Option<Str>,
    versions: Versions, previewImage: Str)

  /** The last `/`-separated segment of a path. */
  function LastSegment(path: Str): (r: Str)
    ensures '/' !in r
  {
    var parts := Split(path, '/');
    parts[|parts| - 1]
  }

  /**
   * `'/'.join(path.split('/')[:-1])`: the path with its last segment
   * removed, `""` for a path without `/`.
   */
  function ModRootPath(path: Str): (r: Str)
    ensures '/' !in path ==> r == ""
    ensures '/' in path ==> r + "/" + LastSegment(path) == path
  {
    var parts := Split(path, '/');
    var n := |parts|;
    if n == 1 then
      assert parts[..0] == [];
      []
    else
      assert parts == parts[..n - 1] + [parts[n - 1]];
      JoinSnoc(parts[..n - 1], parts[n - 1], '/');
      assert path[|Join(parts[..n - 1], '/')|] == '/';
      Join(parts[..n - 1], '/')
  }

  predicate IsAboutDir(e: Entry) {
    e.Dir? && Lower(e.name) == "about"
  }

  /**
   * The record for an About folder, or `None` when reading its about.xml
   * raises. Without an about.xml the four manifest fields are all `'N/A'`.
   */
  function AboutRecord(repo: RepoRef, dir: Entry): Option<Record>
    requires dir.Dir?
  {
    var info: Option<ManifestInfo> :=
      match FindFirst(dir.listing, AboutXml)
      case None => Some(NoManifest)
      case Some(f) =>
        match f.data
        case FetchFailed => None
        case Fetched(doc) => Some(ExtractInfoFromXml(doc));
    match info
    case None => None
    case Some(m) =>
      Some(Record(repo.id, repo.owner, repo.name, ModRootPath(dir.path),
                  m.name, m.description, m.packageId, m.versions, PreviewPath(dir.listing)))
  }

  /** `if subdir_about_info: about_info.extend(subdir_about_info)`. */
  function Below(r: Option<seq<Record>>): seq<Record> {
    match r
    case None => []
    case Some(rs) => rs
  }

  /** What a call at `level` on a directory with listing `l` returns. */
  function Harvest(repo: RepoRef, l: Listing, level: nat): (r: Option<seq<Record>>)
    ensures r.None? <==> level > MaxLevel
    ensures l.ListingFailed? && level <= MaxLevel ==> r == Some([])
    decreases l, 2
  {
    if level > MaxLevel then None
    else
      match l
      case ListingFailed => Some([])
      case Listed(es) => Some(Scan(repo, es, level))
  }

  /** The loop over a listing: entries in order, stopping at the first that raises. */
  function Scan(repo: RepoRef, es: seq<Entry>, level: nat): seq<Record>
    decreases es, 1
  {
    if es == [] then []
    else
      match Step(repo, es[0], level)
      case None => []
      case Some(rs) => rs + Scan(repo, es[1..], level)
  }

  /** One iteration: `None` when it raises, otherwise what it appends. */
  function Step(repo: RepoRef, e: Entry, level: nat): Option<seq<Record>>
    decreases e, 0
  {
    match e
    case Dir(_, _, sub) =>
      var own: Option<seq<Record>> :=
        if IsAboutDir(e) then
          match AboutRecord(repo, e)
          case None => None
          case Some(rec) => Some([rec])
        else Some([]);
      (match own
       case None => None
       case Some(o) => Some(o + Below(Harvest(repo, sub, level + 1))))
    case _ => Some([])
  }

  /** Whether some entry of `es` raises, which ends the loop. */
  predicate Halts(repo: RepoRef, es: seq<Entry>, level: nat) {
    exists k :: 0 <= k < |es| && Step(repo, es[k], level).None?
  }

  /**
   * The body of the `about` branch: reads the manifest if there is one,
   * finds the preview and derives the mod root. `None` when reading the
   * manifest raises.
   */
  method ReadAboutFolder(repo: RepoRef, dir: Entry) returns (rec: Option<Record>)
    requires dir.Dir?
    ensures rec == AboutRecord(repo, dir)
  {
    var xml := FindAboutXml(dir.listing);
    var info: ManifestInfo;
    if xml.Some? {
      match xml.value.data
      case FetchFailed =>
        return None;
      case Fetched(doc) =>
        info := ExtractInfoFromXml(doc);
    } else {
      info := NoManifest;
    }
    var preview := FindPreviewImage(dir.listing);
    var modRootPath := ModRootPath(dir.path);
    return Some(Record(repo.id, repo.owner, repo.name, modRootPath,
                       info.name, info.description, info.packageId, info.versions, preview));
  }

  /** One turn of the loop, as `Scan` sees it. */
  lemma {:induction false} ScanUnfold(repo: RepoRef, es: seq<Entry>, i: nat, level: nat)
    requires i < |es|
    ensures Scan(repo, es[i..], level) ==
      match Step(repo, es[i], level)
      case None => []
      case Some(rs) => rs + Scan(repo, es[i + 1..], level)
  {
    assert es[i..][0] == es[i] && es[i..][1..] == es[i + 1..];
  }

  /**
   * One turn of the loop: the About folder's record, if the entry is one,
   * followed by whatever the recursive walk below it finds. `None` when
   * reading the about.xml raises.
   */
  method ProcessEntry(repo: RepoRef, e: Entry, level: nat) returns (r: Option<seq<Record>>)
    ensures r == Step(repo, e, level)
    decreases e, 0
  {
    if !e.Dir? {
      return Some([]);
    }
    var own: seq<Record> := [];
    if Lower(e.name) == "about" {
      var rec := ReadAboutFolder(repo, e);
      if rec.None? {
        return None;
      }
      own := [rec.value];
    }
    var sub := SearchAboutFolder(repo, e.listing, level + 1);
    if sub.Some? && sub.value != [] {
      return Some(own + sub.value);
    }
    assert own + [] == own;
    return Some(own);
  }

  /** The walk itself, appending and extending a list as the source does. */
  method SearchAboutFolder(repo: RepoRef, l: Listing, level: nat) returns (r: Option<seq<Record>>)
    ensures r == Harvest(repo, l, level)
    decreases l, 1
  {
    if level > MaxLevel {
      return None;
    }
    var aboutInfo: seq<Record> := [];
    if l.ListingFailed? {
      return Some(aboutInfo);
    }
    var es := l.entries;
    var i := 0;
    while i < |es|
      invariant 0 <= i <= |es|
      invariant Scan(repo, es, level) == aboutInfo + Scan(repo, es[i..], level)
    {
      ScanUnfold(repo, es, i, level);
      var found := ProcessEntry(repo, es[i], level);
      if found.None? {
        // The error escapes the loop and is caught for the whole directory.
        assert aboutInfo + [] == aboutInfo;
        return Some(aboutInfo);
      }
      AppendAssoc(aboutInfo, found.value, Scan(repo, es[i + 1..], level));
      aboutInfo := aboutInfo + found.value;
      i := i + 1;
    }
    assert es[|es|..] == [];
    assert aboutInfo + [] == aboutInfo;
    return Some(aboutInfo);
  }

  /** The walk of a whole repository, from its root at level 0. */
  function HarvestRepo(repo: RepoRef, root: Listing): seq<Record> {
    Below(Harvest(repo, root, 0))
  }

  /**
   * The loop is a concatenation: each entry adds its own records after
   * those of the entries before it, unless an earlier entry raised.
   */
  lemma {:induction false} ScanAppend(repo: RepoRef, a: seq<Entry>, b: seq<Entry>, level: nat)
    ensures Halts(repo, a, level) ==> Scan(repo, a + b, level) == Scan(repo, a, level)
    ensures !Halts(repo, a, level) ==> Scan(repo, a + b, level) == Scan(repo, a, level) + Scan(repo, b, level)
  {
    if a == [] {
      assert a + b == b;
    } else {
      assert (a + b)[0] == a[0];
      assert (a + b)[1..] == a[1..] + b;
      ScanAppend(repo, a[1..], b, level);
      HaltsCons(repo, a, level);
      var s := Step(repo, a[0], level);
      if s.Some? {
        AppendAssoc(s.value, Scan(repo, a[1..], level), Scan(repo, b, level));
      }
    }
  }

  /** An entry raises in `a` when the first one does or one of the rest does. */
  lemma {:induction false} HaltsCons(repo: RepoRef, a: seq<Entry>, level: nat)
    requires a != []
    ensures Halts(repo, a, level) <==> Step(repo, a[0], level).None? || Halts(repo, a[1..], level)
  {
    if Halts(repo, a, level) && Step(repo, a[0], level).Some? {
      var k :| 0 <= k < |a| && Step(repo, a[k], level).None?;
      assert a[1..][k - 1] == a[k];
    }
    if Halts(repo, a[1..], level) {
      var k :| 0 <= k < |a[1..]| && Step(repo, a[1..][k], level).None?;
      assert a[k + 1] == a[1..][k];
    }
  }

  /**
   * What one entry contributes does not depend on its siblings: with no
   * error before it, the records of the entries before it, then its own,
   * then those of the entries after it.
   */
  lemma {:induction false} EntryContribution(repo: RepoRef, before: seq<Entry>, e: Entry, after: seq<Entry>, level: nat)
    requires !Halts(repo, before, level)
    requires Step(repo, e, level).Some?
    ensures Scan(repo, before + [e] + after, level)
         == Scan(repo, before, level) + Step(repo, e, level).value + Scan(repo, after, level)
  {
    ScanAppend(repo, before, [e] + after, level);
    assert before + [e] + after == before + ([e] + after);
    assert ([e] + after)[0] == e && ([e] + after)[1..] == after;
    AppendAssoc(Scan(repo, before, level), Step(repo, e, level).value, Scan(repo, after, level));
  }

  /** The record written for an About folder whose listing fails. */
  function UnlistedAboutRecord(repo: RepoRef, path: Str): Record {
    Record(repo.id, repo.owner, repo.name, ModRootPath(path), Some(NA), Some(NA), Some(NA), NAString, NA)
  }

  /**
   * A subdirectory whose listing fails adds nothing beneath it and takes
   * nothing away from its siblings; only if it is itself an About folder
   * does it still add its own all-`'N/A'` record.
   */
  lemma {:induction false} FailedListingIsIsolated(repo: RepoRef, before: seq<Entry>, name: Str, path: Str, after: seq<Entry>, level: nat)
    requires level <= MaxLevel
    requires !Halts(repo, before, level)
    ensures var own := if Lower(name) == "about" then [UnlistedAboutRecord(repo, path)] else [];
            Scan(repo, before + [Dir(name, path, ListingFailed)] + after, level)
            == Scan(repo, before, level) + own + Scan(repo, after, level)
  {
    var e := Dir(name, path, ListingFailed);
    var own := if Lower(name) == "about" then [UnlistedAboutRecord(repo, path)] else [];
    assert Below(Harvest(repo, ListingFailed, level + 1)) == [];
    assert own + [] == own;
    assert Step(repo, e, level) == Some(own);
    EntryContribution(repo, before, e, after, level);
  }

  /**
   * An About folder's own record comes first, immediately followed by the
   * records found beneath it (pre-order).
   */
  lemma {:induction false} AboutRecordPrecedesNested(repo: RepoRef, before: seq<Entry>, e: Entry, after: seq<Entry>, level: nat)
    requires !Halts(repo, before, level)
    requires IsAboutDir(e) && AboutRecord(repo, e).Some?
    ensures Scan(repo, before + [e] + after, level)
         == Scan(repo, before, level) + [AboutRecord(repo, e).value]
            + Below(Harvest(repo, e.listing, level + 1)) + Scan(repo, after, level)
  {
    EntryContribution(repo, before, e, after, level);
    var rec := AboutRecord(repo, e).value;
    var below := Below(Harvest(repo, e.listing, level + 1));
    AppendAssoc(Scan(repo, before, level), [rec], below);
  }

  /**
   * When reading an About folder's about.xml fails, the entries after it in
   * the same listing are never visited, while those before it are kept.
   */
  lemma {:induction false} ManifestReadFailureDropsLaterSiblings(repo: RepoRef, es: seq<Entry>, k: nat, level: nat)
    requires k < |es| && IsAboutDir(es[k])
    requires FindFirst(es[k].listing, AboutXml).Some? && FindFirst(es[k].listing, AboutXml).value.data.FetchFailed?
    ensures Scan(repo, es, level) == Scan(repo, es[..k], level)
  {
    assert Step(repo, es[k], level).None?;
    assert es == es[..k] + es[k..];
    ScanAppend(repo, es[..k], es[k..], level);
    assert Scan(repo, es[k..], level) == [] by {
      assert es[k..][0] == es[k];
    }
    assert Scan(repo, es[..k], level) + [] == Scan(repo, es[..k], level);
  }

  /*
   * The depth bound. `Prune` keeps exactly what a walk from `level` can
   * look at: listings of directories at levels up to MaxLevel + 1 (the last
   * one only through the About-folder searches) and nothing deeper.
   */

  function PruneListing(l: Listing, level: nat): Listing
    decreases l, 2
  {
    if level > MaxLevel + 1 then ListingFailed
    else
      match l
      case ListingFailed => ListingFailed
      case Listed(es) => Listed(PruneEntries(es, level))
  }

  function PruneEntries(es: seq<Entry>, level: nat): (r: seq<Entry>)
    ensures |r| == |es|
    decreases es, 1
  {
    if es == [] then [] else [PruneEntry(es[0], level)] + PruneEntries(es[1..], level)
  }

  function PruneEntry(e: Entry, level: nat): Entry
    decreases e, 0
  {
    match e
    case Dir(name, path, sub) => Dir(name, path, PruneListing(sub, level + 1))
    case _ => e
  }

  lemma {:induction false} FirstMatchPrune(es: seq<Entry>, level: nat, t: Target)
    ensures FirstMatch(PruneEntries(es, level), t) == FirstMatch(es, t)
    ensures FirstMatch(es, t) < |es| ==> PruneEntries(es, level)[FirstMatch(es, t)] == es[FirstMatch(es, t)]
  {
    if es != [] {
      var p := PruneEntries(es, level);
      assert p[0] == PruneEntry(es[0], level) && p[1..] == PruneEntries(es[1..], level);
      assert Matches(t, p[0]) == Matches(t, es[0]);
      assert Matches(t, es[0]) ==> p[0] == es[0];
      FirstMatchPrune(es[1..], level, t);
    }
  }

  lemma {:induction false} FindFirstPrune(l: Listing, level: nat, t: Target)
    requires level <= MaxLevel + 1
    ensures FindFirst(PruneListing(l, level), t) == FindFirst(l, t)
  {
    if l.Listed? {
      FirstMatchPrune(l.entries, level, t);
    }
  }

  /**
   * Nothing deeper than MaxLevel + 1 is ever looked at: a walk of the
   * pruned tree gives exactly the records of the full tree.
   */
  lemma {:induction false} HarvestIgnoresDeepTree(repo: RepoRef, l: Listing, level: nat)
    ensures Harvest(repo, PruneListing(l, level), level) == Harvest(repo, l, level)
    decreases l, 2
  {
    if level <= MaxLevel && l.Listed? {
      ScanIgnoresDeepTree(repo, l.entries, level);
    }
  }

  lemma {:induction false} ScanIgnoresDeepTree(repo: RepoRef, es: seq<Entry>, level: nat)
    requires level <= MaxLevel
    ensures Scan(repo, PruneEntries(es, level), level) == Scan(repo, es, level)
    decreases es, 1
  {
    if es != [] {
      var p := PruneEntries(es, level);
      assert p[0] == PruneEntry(es[0], level) && p[1..] == PruneEntries(es[1..], level);
      StepIgnoresDeepTree(repo, es[0], level);
      ScanIgnoresDeepTree(repo, es[1..], level);
    }
  }

  lemma {:induction false} StepIgnoresDeepTree(repo: RepoRef, e: Entry, level: nat)
    requires level <= MaxLevel
    ensures Step(repo, PruneEntry(e, level), level) == Step(repo, e, level)
    decreases e, 0
  {
    if e.Dir? {
      var p := PruneEntry(e, level);
      AboutRecordIgnoresDeepTree(repo, e, level);
      HarvestIgnoresDeepTree(repo, e.listing, level + 1);
      assert p.listing == PruneListing(e.listing, level + 1);
      assert IsAboutDir(p) == IsAboutDir(e);
    }
  }

  lemma {:induction false} AboutRecordIgnoresDeepTree(repo: RepoRef, e: Entry, level: nat)
    requires level <= MaxLevel && e.Dir?
    ensures AboutRecord(repo, PruneEntry(e, level)) == AboutRecord(repo, e)
  {
    match e
    case Dir(name, path, sub) =>
      AboutRecordOfPrunedListing(repo, name, path, sub, level + 1);
  }

  /** An About folder's record is the same once everything below its own listing is cut away. */
  lemma {:induction false} AboutRecordOfPrunedListing(repo: RepoRef, name: Str, path: Str, l: Listing, level: nat)
    requires level <= MaxLevel + 1
    ensures AboutRecord(repo, Dir(name, path, PruneListing(l, level))) == AboutRecord(repo, Dir(name, path, l))
  {
    FindFirstPrune(l, level, AboutXml);
    FindFirstPrune(l, level, PreviewImage);
    assert PreviewPath(PruneListing(l, level)) == PreviewPath(l);
  }
}
