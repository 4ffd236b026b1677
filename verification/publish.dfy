/**
 * `write_paths_to_xml`: publishing the catalog to `addons_list.xml` in the
 * hub repository. The new document's MD5 is compared with the stored
 * file's; the file is updated (against the SHA just read) only when they
 * differ. Any error on the way, a missing file included, falls through to
 * `create_file`, which itself fails when the file exists, and that error is
 * not caught.
 */
module Publish {
  import opened Options
  import opened Text

  type Bytes = seq<bv8>

  /** The catalog file of the hub repository: its bytes, or `None` when there is no such file. */
  type Store = Option<Bytes>

  /**
   * What `get_contents` reports: the bytes and their SHA. The contents API's
   * SHA is the git blob hash of the bytes, so it is a function `sha` of the
   * content, passed in where it is needed.
   */
  datatype StoredFile = StoredFile(content: Bytes, sha: Str)

  /**
   * What else happens to the file during one publication: nothing; the read
   * raising although the file exists; or another writer creating, replacing
   * or deleting the file between the read and the write that follows it.
   */
  datatype Interference = Undisturbed | ReadFails | ChangedMeanwhile(content: Bytes) | DeletedMeanwhile

  /** How a publication ends; `CreateRaised` is the uncaught error of `create_file`. */
  datatype Outcome = Unchanged | Updated | Created | CreateRaised

  /** The store once the other writer has acted. */
  function Interfere(s: Store, i: Interference): Store {
    match i
    case ChangedMeanwhile(c) => Some(c)
    case DeletedMeanwhile => None
    case _ => s
  }

  /** `repo.create_file`: succeeds only when there is no file yet. */
  function CreateStep(s: Store, xml: Bytes): (Store, Outcome) {
    if s.None? then (Some(xml), Created) else (s, CreateRaised)
  }

  /**
   * One publication of the bytes `xml`, with `md5` the hex digest and `sha`
   * the blob hash. Left alone, it always ends with a file whose digest is
   * the new one, and it commits only when the digests differ. The update
   * goes through exactly when the file still has the SHA that was read. A
   * failed read of an existing file, a write by someone else in between
   * that changes the SHA, or a file someone else creates after the read
   * found none, ends in the uncaught `create_file` error with nothing
   * written.
   */
  function PublishStep(s: Store, xml: Bytes, md5: Bytes -> Str, sha: Bytes -> Str, i: Interference): (res: (Store, Outcome))
    ensures i == Undisturbed ==>
      && res.1 != CreateRaised
      && res.0.Some?
      && md5(res.0.value) == md5(xml)
    ensures res.1 == Unchanged <==> i != ReadFails && s.Some? && md5(s.value) == md5(xml)
    ensures res.1 == Unchanged ==> res.0 == Interfere(s, i)
    ensures res.1 == Updated <==>
      && i != ReadFails && s.Some? && md5(s.value) != md5(xml)
      && Interfere(s, i).Some? && sha(Interfere(s, i).value) == sha(s.value)
    ensures res.1 == Updated || res.1 == Created ==> res.0 == Some(xml)
    ensures res.1 == Created ==> Interfere(s, i).None?
    ensures res.1 == CreateRaised ==> res.0 == Interfere(s, i) && res.0.Some?
    ensures i == ReadFails && s.Some? ==> res == (s, CreateRaised)
    ensures s.None? && Interfere(s, i).None? ==> res == (Some(xml), Created)
    ensures s.None? && Interfere(s, i).Some? ==> res == (Interfere(s, i), CreateRaised)
    ensures i == Undisturbed && s.Some? && md5(s.value) != md5(xml) ==> res == (Some(xml), Updated)
  {
    if s.None? || i == ReadFails then CreateStep(Interfere(s, i), xml)
    else
      var existing := s.value;
      var s' := Interfere(s, i);
      if md5(xml) == md5(existing) then (s', Unchanged)
      else if s'.Some? && sha(s'.value) == sha(existing) then (Some(xml), Updated)
      else CreateStep(s', xml)
  }

  /**
   * Publishing the same document twice in a row, undisturbed, commits
   * nothing the second time.
   */
  lemma {:induction false} RepublishIsNoOp(s: Store, xml: Bytes, md5: Bytes -> Str, sha: Bytes -> Str)
    ensures var once := PublishStep(s, xml, md5, sha, Undisturbed).0;
            PublishStep(once, xml, md5, sha, Undisturbed) == (once, Unchanged)
  {
    var once := PublishStep(s, xml, md5, sha, Undisturbed).0;
    assert once.Some? && md5(once.value) == md5(xml);
  }

  /**
   * The digest comparison decides what is stored: an undisturbed
   * publication leaves exactly `xml` in the file unless the old content
   * has the same digest as `xml` without being `xml` (an MD5 collision).
   */
  lemma {:induction false} PublishedContent(s: Store, xml: Bytes, md5: Bytes -> Str, sha: Bytes -> Str)
    ensures var after := PublishStep(s, xml, md5, sha, Undisturbed).0;
            after == Some(xml)
            || (s.Some? && s.value != xml && md5(s.value) == md5(xml) && after == s)
  {
  }

  /**
   * Another writer rewriting the file with the bytes it already had leaves
   * its SHA as it was, so the update still goes through.
   */
  lemma {:induction false} SameBytesRewriteStillUpdates(before: Bytes, xml: Bytes, md5: Bytes -> Str, sha: Bytes -> Str)
    requires md5(before) != md5(xml)
    ensures PublishStep(Some(before), xml, md5, sha, ChangedMeanwhile(before)) == (Some(xml), Updated)
  {
  }

  /**
   * Another writer replacing the file with bytes of a different SHA between
   * the read and the update: the update is refused, `create_file` raises,
   * and the other writer's bytes stay.
   */
  lemma {:induction false} ConcurrentChangeIsKept(before: Bytes, c: Bytes, xml: Bytes, md5: Bytes -> Str, sha: Bytes -> Str)
    requires md5(before) != md5(xml) && sha(c) != sha(before)
    ensures PublishStep(Some(before), xml, md5, sha, ChangedMeanwhile(c)) == (Some(c), CreateRaised)
  {
  }

  /** The hub repository's catalog file, changed in place by the contents API calls. */
  class HubRepository {
    var file: Store
    /** The blob hash the contents API reports as a file's SHA. */
    const sha: Bytes -> Str

    constructor (initial: Store, sha: Bytes -> Str)
      ensures file == initial && this.sha == sha
    {
      file := initial;
      this.sha := sha;
    }

    /** `get_contents(OUTPUT_FILE_PATH)`; `None` where it raises because the file is missing. */
    method GetContents() returns (r: Option<StoredFile>)
      ensures r.None? <==> file.None?
      ensures r.Some? ==> r.value == StoredFile(file.value, sha(file.value))
    {
      if file.None? {
        r := None;
      } else {
        r := Some(StoredFile(file.value, sha(file.value)));
      }
    }

    /** `update_file`: replaces the file if `expected` is still its SHA, and fails otherwise. */
    method UpdateFile(content: Bytes, expected: Str) returns (ok: bool)
      modifies this
      ensures ok <==> old(file).Some? && sha(old(file).value) == expected
      ensures file == if ok then Some(content) else old(file)
    {
      ok := file.Some? && sha(file.value) == expected;
      if ok {
        file := Some(content);
      }
    }

    /** `create_file`: creates the file, and fails if it already exists. */
    method CreateFile(content: Bytes) returns (ok: bool)
      modifies this
      ensures ok <==> old(file).None?
      ensures file == if ok then Some(content) else old(file)
    {
      ok := file.None?;
      if ok {
        file := Some(content);
      }
    }

    /** Another writer acting on the file. */
    method SufferInterference(i: Interference)
      modifies this
      ensures file == Interfere(old(file), i)
    {
      match i {
        case ChangedMeanwhile(c) =>
          file := Some(c);
        case DeletedMeanwhile =>
          file := None;
        case _ =>
      }
    }
  }

  /** The publication itself, against the repository object. */
  method WritePathsToXml(repo: HubRepository, xml: Bytes, md5: Bytes -> Str, i: Interference) returns (outcome: Outcome)
    modifies repo
    ensures (repo.file, outcome) == PublishStep(old(repo.file), xml, md5, repo.sha, i)
  {
    var newHash := md5(xml);
    var existing := repo.GetContents();
    if i == ReadFails {
      existing := None;
    }
    if existing.Some? {
      var existingHash := md5(existing.value.content);
      repo.SufferInterference(i);
      if newHash == existingHash {
        return Unchanged;
      }
      var updated := repo.UpdateFile(xml, existing.value.sha);
      if updated {
        return Updated;
      }
    } else {
      repo.SufferInterference(i);
    }
    var created := repo.CreateFile(xml);
    outcome := if created then Created else CreateRaised;
  }
}
