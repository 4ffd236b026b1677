/**
 * `find_about_info_parallel` and `main`: every seed repository is looked up
 * and its walk submitted to a thread pool; the walks' records are
 * concatenated in the order the walks complete, and the catalog is
 * published unless there is nothing to publish. Looking a repository up
 * (`g.get_repo`) and unpacking a seed entry into owner and name happen
 * outside any error handler, so a failure there ends the whole run.
 */
module Pipeline {
  import opened Options
  import opened Text
  import opened Xml
  import opened SeedList
  import opened RepoTree
  import opened Walker
  import opened Catalog
  import opened Publish

  /** A repository as `g.get_repo` returns it: its numeric id and its root directory. */
  datatype HostedRepo = HostedRepo(id: nat, root: Listing)

  /** `f"{owner}/{repo_name}"`, the key `g.get_repo` is called with. */
  function FullName(owner: Str, name: Str): Str {
    owner + "/" + name
  }

  /** A seed entry unpacks into owner and name, and names a repository that exists. */
  predicate Resolvable(entry: seq<Str>, hosting: map<Str, HostedRepo>) {
    |entry| == 2 && FullName(entry[0], entry[1]) in hosting
  }

  /** The repository a resolvable seed entry denotes, and the root to walk. */
  function Resolved(entry: seq<Str>, hosting: map<Str, HostedRepo>): (RepoRef, Listing)
    requires Resolvable(entry, hosting)
  {
    var hosted := hosting[FullName(entry[0], entry[1])];
    (RepoRef(hosted.id, entry[0], entry[1]), hosted.root)
  }

  /**
   * The submissions: every seed entry resolved in turn, or `None` when one
   * of them cannot be, which aborts the run.
   */
  function Resolve(entries: seq<seq<Str>>, hosting: map<Str, HostedRepo>): (r: Option<seq<(RepoRef, Listing)>>)
    ensures r.Some? <==> forall k :: 0 <= k < |entries| ==> Resolvable(entries[k], hosting)
    ensures r.Some? ==> |r.value| == |entries|
    ensures r.Some? ==> forall k :: 0 <= k < |entries| ==> r.value[k] == Resolved(entries[k], hosting)
  {
    if entries == [] then Some([])
    else if !Resolvable(entries[0], hosting) then None
    else
      match Resolve(entries[1..], hosting)
      case None =>
        assert !Resolvable(entries[1..][0], hosting) || exists k :: 1 <= k < |entries| && !Resolvable(entries[k], hosting) by {
          var k :| 0 <= k < |entries[1..]| && !Resolvable(entries[1..][k], hosting);
          assert entries[1..][k] == entries[k + 1];
        }
        None
      case Some(rest) => Some([Resolved(entries[0], hosting)] + rest)
  }

  /** The records of every submitted walk, in submission order. */
  function Results(targets: seq<(RepoRef, Listing)>): (r: seq<seq<Record>>)
    ensures |r| == |targets|
    ensures forall k :: 0 <= k < |targets| ==> r[k] == HarvestRepo(targets[k].0, targets[k].1)
  {
    if targets == [] then []
    else [HarvestRepo(targets[0].0, targets[0].1)] + Results(targets[1..])
  }

  /** `0, 1, …, n - 1`. */
  function Indices(n: nat): (r: seq<nat>)
    ensures |r| == n
    ensures forall k :: 0 <= k < n ==> r[k] == k
  {
    if n == 0 then [] else Indices(n - 1) + [n - 1]
  }

  /** An order in which `as_completed` can yield `n` futures: each exactly once. */
  predicate IsCompletionOrder(order: seq<nat>, n: nat) {
    multiset(order) == multiset(Indices(n))
  }

  lemma {:induction false} CompletionOrderBound(order: seq<nat>, n: nat)
    requires IsCompletionOrder(order, n)
    ensures |order| == n
    ensures forall j :: 0 <= j < |order| ==> order[j] < n
  {
    assert |order| == |multiset(order)| == |multiset(Indices(n))| == n;
    forall j | 0 <= j < |order|
      ensures order[j] < n
    {
      assert order[j] in multiset(Indices(n));
      var k :| 0 <= k < n && Indices(n)[k] == order[j];
    }
  }

  /** The records extended into `all_about_info`, walk by walk, in completion order. */
  function Gather(results: seq<seq<Record>>, order: seq<nat>): seq<Record> {
    if order == [] then []
    else
      var k := order[|order| - 1];
      Gather(results, order[..|order| - 1]) + (if k < |results| then results[k] else [])
  }

  /** `find_about_info_parallel`: `None` when the run aborts while submitting. */
  function Harvested(entries: seq<seq<Str>>, hosting: map<Str, HostedRepo>, order: seq<nat>): Option<seq<Record>> {
    match Resolve(entries, hosting)
    case None => None
    case Some(targets) => Some(Gather(Results(targets), order))
  }

  /** The walks run one after another here; their completion order is the parameter `order`. */
  method FindAboutInfoParallel(entries: seq<seq<Str>>, hosting: map<Str, HostedRepo>, order: seq<nat>)
    returns (r: Option<seq<Record>>)
    requires IsCompletionOrder(order, |entries|)
    ensures r == Harvested(entries, hosting, order)
  {
    var targets: seq<(RepoRef, Listing)> := [];
    var results: seq<seq<Record>> := [];
    for k := 0 to |entries|
      invariant |targets| == k && |results| == k
      invariant forall j :: 0 <= j < k ==> Resolvable(entries[j], hosting)
      invariant forall j :: 0 <= j < k ==> targets[j] == Resolved(entries[j], hosting)
      invariant forall j :: 0 <= j < k ==> results[j] == HarvestRepo(targets[j].0, targets[j].1)
    {
      var entry := entries[k];
      if |entry| != 2 || FullName(entry[0], entry[1]) !in hosting {
        // The unpacking or `g.get_repo` raises outside any handler.
        return None;
      }
      var hosted := hosting[FullName(entry[0], entry[1])];
      var repo := RepoRef(hosted.id, entry[0], entry[1]);
      var found := SearchAboutFolder(repo, hosted.root, 0);
      targets := targets + [(repo, hosted.root)];
      results := results + [Below(found)];
    }
    var resolved := Resolve(entries, hosting);
    assert resolved.Some?;
    forall j | 0 <= j < |entries|
      ensures resolved.value[j] == targets[j]
    {
    }
    assert resolved.value == targets;
    assert Results(targets) == results;
    CompletionOrderBound(order, |entries|);
    var all: seq<Record> := [];
    for j := 0 to |order|
      invariant all == Gather(results, order[..j])
    {
      assert order[..j + 1][..j] == order[..j];
      all := all + results[order[j]];
    }
    assert order[..|order|] == order;
    return Some(all);
  }

  lemma {:induction false} GatherAppend(results: seq<seq<Record>>, a: seq<nat>, b: seq<nat>)
    ensures Gather(results, a + b) == Gather(results, a) + Gather(results, b)
    decreases |b|
  {
    if b == [] {
      assert a + b == a;
    } else {
      var n := |b| - 1;
      var k := b[n];
      var part := if k < |results| then results[k] else [];
      assert (a + b)[..|a + b| - 1] == a + b[..n];
      GatherAppend(results, a, b[..n]);
      AppendAssoc(Gather(results, a), Gather(results, b[..n]), part);
    }
  }

  /** Taking one element out of a sequence takes it out of its multiset. */
  lemma {:induction false} RemoveOne(o: seq<nat>, p: nat)
    requires p < |o|
    ensures multiset(o[..p] + o[p + 1..]) == multiset(o) - multiset{o[p]}
  {
    assert o == o[..p] + [o[p]] + o[p + 1..];
    assert multiset(o) == multiset(o[..p]) + multiset{o[p]} + multiset(o[p + 1..]);
  }

  /** Gathering in an order with one walk taken out, then that walk's records. */
  lemma {:induction false} GatherSplit(results: seq<seq<Record>>, o: seq<nat>, p: nat)
    requires p < |o|
    ensures Gather(results, o) ==
      Gather(results, o[..p]) + Gather(results, [o[p]]) + Gather(results, o[p + 1..])
  {
    assert o == o[..p] + [o[p]] + o[p + 1..];
    GatherAppend(results, o[..p] + [o[p]], o[p + 1..]);
    GatherAppend(results, o[..p], [o[p]]);
  }

  /** Which records are gathered depends only on which walks complete, not on when. */
  lemma {:induction false} GatherPermutation(results: seq<seq<Record>>, o1: seq<nat>, o2: seq<nat>)
    requires multiset(o1) == multiset(o2)
    ensures multiset(Gather(results, o1)) == multiset(Gather(results, o2))
    decreases |o1|
  {
    if o1 != [] {
      var n := |o1| - 1;
      var x := o1[n];
      assert x in multiset(o2);
      var p :| 0 <= p < |o2| && o2[p] == x;
      var rest := o2[..p] + o2[p + 1..];
      RemoveOne(o1, n);
      RemoveOne(o2, p);
      assert o1[..n] + o1[n + 1..] == o1[..n];
      GatherPermutation(results, o1[..n], rest);
      GatherSplit(results, o1, n);
      GatherSplit(results, o2, p);
      GatherAppend(results, o2[..p], o2[p + 1..]);
      assert o1[n + 1..] == [];
    } else {
      assert |multiset(o2)| == 0;
    }
  }

  /**
   * Every completion order yields the same records with the same
   * multiplicities: those of the walks taken in submission order.
   */
  lemma {:induction false} RecordsIndependentOfCompletionOrder(results: seq<seq<Record>>, order: seq<nat>)
    requires IsCompletionOrder(order, |results|)
    ensures multiset(Gather(results, order)) == multiset(Gather(results, Indices(|results|)))
  {
    GatherPermutation(results, order, Indices(|results|));
  }

  /**
   * The order of the records, and with it the catalog document, does
   * depend on the completion order: two walks finishing the other way
   * round give a different document.
   */
  lemma {:induction false} CatalogDependsOnCompletionOrder(a: Record, b: Record)
    requires AsRead(a) != AsRead(b)
    ensures CatalogTree(Gather([[a], [b]], [0, 1])) != CatalogTree(Gather([[a], [b]], [1, 0]))
  {
    var ab := Gather([[a], [b]], [0, 1]);
    var ba := Gather([[a], [b]], [1, 0]);
    var results := [[a], [b]];
    assert [0, 1][..1] == [0] && [0][..0] == [];
    assert [1, 0][..1] == [1] && [1][..0] == [];
    assert Gather(results, [0]) == Gather(results, []) + [a] == [a];
    assert Gather(results, [1]) == Gather(results, []) + [b] == [b];
    assert ab == Gather(results, [0]) + [b] == [a, b];
    assert ba == Gather(results, [1]) + [a] == [b, a];
    CatalogRoundTrip(ab);
    CatalogRoundTrip(ba);
    assert AllAsRead(ab)[0] != AllAsRead(ba)[0];
  }

  /** How `main` ends. */
  datatype RunResult = Aborted | NoRepositories | NoRecords | Published(outcome: Outcome)

  /**
   * One run of the harvester: read the seed list, walk every repository,
   * and publish the catalog of all records found. Nothing is written
   * unless there are repositories and records.
   */
  function RunSpec(
    s: Store, seed: Option<Str>, urlPath: Str -> Option<Str>, hosting: map<Str, HostedRepo>, order: seq<nat>,
    serialize: Element -> Bytes, md5: Bytes -> Str, sha: Bytes -> Str, i: Interference): (res: (Store, RunResult))
    ensures !res.1.Published? ==> res.0 == s
    ensures seed.None? ==> res == (s, NoRepositories)
    ensures res.1 == NoRepositories <==> GetRepositoriesFromFile(seed, urlPath) == []
    ensures res.1 == Aborted <==> GetRepositoriesFromFile(seed, urlPath) != [] && Resolve(GetRepositoriesFromFile(seed, urlPath), hosting).None?
    ensures res.1.Published? ==>
      var found := Harvested(GetRepositoriesFromFile(seed, urlPath), hosting, order);
      && found.Some? && found.value != []
      && var step := PublishStep(s, serialize(CatalogTree(found.value)), md5, sha, i);
         res == (step.0, Published(step.1))
    ensures res.1 == NoRecords <==>
      GetRepositoriesFromFile(seed, urlPath) != [] && Harvested(GetRepositoriesFromFile(seed, urlPath), hosting, order) == Some([])
  {
    var entries := GetRepositoriesFromFile(seed, urlPath);
    if entries == [] then (s, NoRepositories)
    else
      match Harvested(entries, hosting, order)
      case None => (s, Aborted)
      case Some(rs) =>
        if rs == [] then (s, NoRecords)
        else
          var published := PublishStep(s, serialize(CatalogTree(rs)), md5, sha, i);
          (published.0, Published(published.1))
  }

  /** `main`, against the hub repository object. */
  method Run(
    hub: HubRepository, seed: Option<Str>, urlPath: Str -> Option<Str>, hosting: map<Str, HostedRepo>, order: seq<nat>,
    serialize: Element -> Bytes, md5: Bytes -> Str, i: Interference) returns (result: RunResult)
    requires IsCompletionOrder(order, |GetRepositoriesFromFile(seed, urlPath)|)
    modifies hub
    ensures (hub.file, result) == RunSpec(old(hub.file), seed, urlPath, hosting, order, serialize, md5, hub.sha, i)
  {
    var entries := GetRepositoriesFromFile(seed, urlPath);
    if entries == [] {
      return NoRepositories;
    }
    var aboutInfo := FindAboutInfoParallel(entries, hosting, order);
    if aboutInfo.None? {
      return Aborted;
    }
    if aboutInfo.value == [] {
      return NoRecords;
    }
    var root := GenerateXmlString(aboutInfo.value);
    var outcome := WritePathsToXml(hub, serialize(root), md5, i);
    return Published(outcome);
  }

  /**
   * Running the harvester a second time on unchanged repositories, with the
   * walks completing in the same order and nobody else writing, commits
   * nothing.
   */
  lemma {:induction false} RerunIsNoOp(
    s: Store, seed: Option<Str>, urlPath: Str -> Option<Str>, hosting: map<Str, HostedRepo>, order: seq<nat>,
    serialize: Element -> Bytes, md5: Bytes -> Str, sha: Bytes -> Str)
    ensures var first := RunSpec(s, seed, urlPath, hosting, order, serialize, md5, sha, Undisturbed);
            var second := RunSpec(first.0, seed, urlPath, hosting, order, serialize, md5, sha, Undisturbed);
            second.0 == first.0 && (first.1.Published? ==> second.1 == Published(Unchanged))
  {
    var first := RunSpec(s, seed, urlPath, hosting, order, serialize, md5, sha, Undisturbed);
    var entries := GetRepositoriesFromFile(seed, urlPath);
    if first.1.Published? {
      var rs := Harvested(entries, hosting, order).value;
      RepublishIsNoOp(s, serialize(CatalogTree(rs)), md5, sha);
    }
  }
}
