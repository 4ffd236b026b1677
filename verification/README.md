# HSK-addons catalog harvester, modelled in Dafny

`check_repos.py` keeps the HardcoreSK add-on catalog (`addons_list.xml` in
the `HardcoreSK/HSK-addons` repository) in step with the mods it lists. A run
does the following:

1. It reads the seed file `repos`, one repository URL per line.
2. It cuts each URL's path into an owner and a repository name.
3. It walks each repository directory by directory, down to level 3.
4. Every `About` folder the walk reaches (the name compared in lower case)
   becomes one record, unless reading its `about.xml` fails. The record holds the repository id, owner and name, and the mod root path. It
   also holds the name, description, package id and supported versions from
   `About.xml`, and the path of the first `preview*.png` / `preview*.jpeg`.
5. The records of all repositories are concatenated in the order the
   per-repository walks finish.
6. The records are built into one XML catalog.
7. The catalog is written only when its MD5 differs from the stored file's.

## How the model is laid out

Each module follows one part of the script.

- `Text` (`text.dfy`) holds the Python string operations the script relies
  on, over `seq<char>`: `strip()`, `strip(c)`, `split`, `split(c, 1)`,
  `join`, `lower()` and `str(n)`.
- `SeedList` (`seed_list.dfy`) models `splitlines`, the line filter,
  `extract_owner_repo`, `get_repositories_from_file` and `get_repo_url`.
- `Xml` (`xml.dfy`) models ElementTree elements and the `find`/`findall`
  lookups among direct children.
- `Manifest` (`manifest.dfy`) models `extract_info_from_xml`.
- `RepoTree` (`repo_tree.dfy`) models a repository as the contents API shows
  it: listings that may fail, and files that may fail to load. It also holds
  the two first-match search loops.
- `Walker` (`walker.dfy`) models `search_about_folder_and_extract_info`. A
  specification function gives the result, and an imperative method does the
  walk with the source's append/extend loop and recursion. The method is
  proved equal to the function.
- `Catalog` (`catalog.dfy`) models `generate_xml_string`, as a method that
  builds the tree and the function it is proved against. A reader of the
  document comes with a round-trip proof.
- `Publish` (`publish.dfy`) models `write_paths_to_xml`. The hub repository
  is a class whose `file` field is changed by `UpdateFile`/`CreateFile`. A
  file's SHA is the blob hash of its bytes, as on GitHub. The run's decisions are the function
  `PublishStep`.
- `Pipeline` (`pipeline.dfy`) models `find_about_info_parallel` and `main`.

### Behaviour worth knowing

The model follows the script as written, including these consequences:

- **Record order.** The catalog is not sorted. Records follow the order in
  which the per-repository walks complete (`check_repos.py:141-146`), so the
  bytes, and therefore the MD5, can change between runs on unchanged data.
  `Pipeline.CatalogDependsOnCompletionOrder` shows two orders giving
  different documents. `Pipeline.RecordsIndependentOfCompletionOrder` shows
  that only the order, not the content, depends on completion.
- **Walking.** There is no single recursive tree listing. The walk lists one
  directory at a time and stops below level 3. About folders are therefore
  found only as entries of directories at levels 0 to 3.
- **Preview images.** The pattern is `^preview.*\.(png|jpeg)$`. `.jpg` is
  never taken as a preview.
- **Dependencies and branches.** No dependencies are extracted. No branch is
  created or selected: the default branch is written.
- **About folders without `about.xml`.** Their `supported_versions` is the
  string `'N/A'`, not a list. The catalog then carries three `version`
  elements, `N`, `/` and `A` (`Catalog.MissingManifestPublishesPlaceholderCharacters`).
- **Failure to read an `about.xml`.** The error is not caught next to the
  read. It escapes to the handler of the enclosing directory, so the
  directory's later entries are never visited, while the earlier records are
  kept.
- **Failures that end the whole run.** `g.get_repo`, and unpacking a seed
  entry into owner and name, sit outside any handler. A seed URL whose path
  has no `/`, or names a missing repository, ends the run, and nothing is
  published.
- **Seed file.** When the seed file cannot be read, the run does nothing. It
  does not fail.
- **Publishing errors.** When the read or the update fails, the script falls
  back to `create_file`. That call fails if the file exists, and its error is
  not caught.

## Model

| member | source | states |
|---|---|---|
| Text.Strip | check_repos.py:31 | `strip()`: the result is empty exactly when the line is all whitespace. Otherwise it neither starts nor ends with whitespace. |
| Text.StripIsSlice | check_repos.py:31 | The stripped line is a contiguous slice of the line, and only whitespace is cut on either side of it. |
| Text.StripIdempotent | check_repos.py:31 | Stripping a stripped line changes nothing. |
| Text.StripChar | check_repos.py:25 | `strip('/')`: the result is empty exactly when every character is `/`. Otherwise it neither starts nor ends with `/`. It is a contiguous slice of the input. |
| Text.StripCharIsSlice | check_repos.py:25 | Only `/` is cut, and only from the two ends: the result is a slice of the input with nothing but `/` before and after it. |
| Text.StripCharOne | check_repos.py:25 | Exactly one leading `/` is removed from `/x` when `x` neither starts nor ends with `/`. |
| Text.Split | check_repos.py:58 | `split('/')`: at least one piece, no piece holds the separator, and joining the pieces gives the input back. |
| Text.SplitOnce | check_repos.py:26 | `split('/', 1)`: one or two pieces; the first holds no separator; there are two pieces exactly when the input holds one; joining gives the input back. |
| Text.JoinSnoc | check_repos.py:58 | Joining parts plus one more part is the old join, the separator, then the new part. |
| Text.Lower | check_repos.py:49 | `lower()` keeps the length and lowers each character on its own. |
| Text.ParseNatToString | check_repos.py:105 | `str(repo_id)` reads back as the same number. |
| SeedList.SplitLines | check_repos.py:31 | `splitlines()`: no line holds a line boundary. |
| SeedList.SplitLinesMeaning | check_repos.py:31 | For every text, the lines, each followed by a newline, are the text with every boundary written as `\n` (`\r\n` counting as one) and a final newline added when it lacked one. As no line holds a boundary, this fixes the lines. |
| SeedList.SplitLinesRoundTrip | check_repos.py:31 | For `\n`-separated text, the lines, each followed by a newline, give the text back (with a final newline added when it lacked one). |
| SeedList.SeedLines | check_repos.py:31 | Every surviving seed line is non-empty and already stripped. |
| SeedList.Kept | check_repos.py:31 | A line contributes at most one entry, and that entry is non-empty and stripped. |
| SeedList.SeedLine | check_repos.py:31 | A blank line contributes nothing; any other line contributes its stripped text. |
| SeedList.SeedLinesAppend | check_repos.py:31 | Filtering works line by line: the survivors of two blocks of lines are the survivors of each, in order. |
| SeedList.BlankSeedGivesNoRepositories | check_repos.py:31 | A seed file made only of blank lines gives no entries. |
| SeedList.ExtractOwnerRepo | check_repos.py:24-26 | One or two parts; the first holds no `/`; joining with `/` restores the slash-stripped path. There are two parts exactly when that path holds a `/`, and then both parts are non-empty and the last does not end in `/`. |
| SeedList.RepoUrlRoundTrip | check_repos.py:37-38 | The path of the address `get_repo_url` builds is extracted back to the same owner and name. |
| SeedList.GetRepositoriesFromFile | check_repos.py:28-35 | An unreadable seed file gives `[]`, and so does a single URL that `urlparse` rejects. Otherwise there is one entry per non-blank line, in order, each the extraction of that line's URL path. |
| SeedList.OwnerRepos | check_repos.py:32 | `None` exactly when `urlparse` rejects some URL. Otherwise one extraction per URL, in order. |
| Xml.Find | check_repos.py:71 | `find(tag)` is `None` exactly when no child has the tag; otherwise it is a child with that tag. |
| Xml.Tagged | check_repos.py:74 | The children with a tag, each one of the original children. |
| Xml.TaggedAppend | check_repos.py:74 | Selecting by tag distributes over concatenation, keeping document order. |
| Xml.FindWithout | check_repos.py:71-73 | Deleting the elements of one tag does not change what `find` returns for another tag. |
| Xml.TaggedWithout | check_repos.py:74 | Deleting the elements of one tag does not change which elements carry another tag. |
| Manifest.FieldText | check_repos.py:71-73 | A field whose element is absent is `'N/A'`. Otherwise it is the text of the first child with that tag. |
| Manifest.SupportedVersions | check_repos.py:74 | With no `supportedVersions` element, the versions are `[]`. |
| Manifest.ExtractInfoFromXml | check_repos.py:68-78 | A parse error gives `('N/A','N/A','N/A',[])`. Otherwise each field comes from its own lookup, and the versions are always a list. |
| Manifest.FieldsDefaultIndependently | check_repos.py:71-73 | Deleting one of `name`, `description`, `packageId` from a manifest turns that field into `'N/A'` and leaves the other three fields as they were. |
| Manifest.OneVersionsBlock | check_repos.py:74 | With exactly one `supportedVersions` element, the versions are its `li` texts in document order. |
| RepoTree.FirstMatch | check_repos.py:93-95 | The position of the first matching entry: every entry before it fails the test. |
| RepoTree.FindFirst | check_repos.py:90-98 | What a search returns: nothing for a failed listing or when no entry matches; otherwise a matching entry of the listing with no match before it. |
| RepoTree.FindAboutXml | check_repos.py:90-98 | The search loop returns exactly the first file whose lowered name is `about.xml`, or nothing. |
| RepoTree.FindPreviewImage | check_repos.py:80-88 | The search loop returns the path of the first file matching the preview pattern, or `'N/A'` when there is none or the listing fails. |
| RepoTree.PreviewPatternMeaning | check_repos.py:84 | For names without line breaks, the regular expression holds exactly when the name starts with `preview` and ends with `.png` or `.jpeg`. |
| RepoTree.JpgIsNeverPreview | check_repos.py:84 | A file whose lowered name ends in `.jpg` is never the preview image. |
| RepoTree.MatchIgnoresCase | check_repos.py:84 | A name and its lowered form match the same way. |
| Walker.ModRootPath | check_repos.py:58 | The mod root is `''` for a path without `/`. Otherwise the mod root, `/` and the last segment give the path back. |
| Walker.Harvest | check_repos.py:40-66 | A call returns `None` exactly when `level > 3`; a directory whose listing fails gives `[]`. |
| Walker.ReadAboutFolder | check_repos.py:49-59 | An About folder's record, built with the `about.xml` search, the manifest read and the preview search, is exactly `AboutRecord`: `None` when the `about.xml` fetch fails, else the record with the all-`'N/A'` fields when there is no `about.xml`. |
| Walker.ProcessEntry | check_repos.py:47-63 | One loop iteration, with the record of an About folder and the recursive call, yields exactly `Step`: no records for an entry that is not a directory, and `None` when an error escapes. |
| Walker.SearchAboutFolder | check_repos.py:40-66 | The walk with its append/extend loop and recursion returns exactly `Harvest`. |
| Walker.ScanAppend | check_repos.py:46-63 | The records of a listing are those of its first part followed by those of the rest, unless an error in the first part ended the loop. |
| Walker.EntryContribution | check_repos.py:46-63 | With no error before it, an entry's records sit between those of the entries before it and those after it. |
| Walker.FailedListingIsIsolated | check_repos.py:44-66 | A subdirectory whose listing fails adds nothing beneath it and removes nothing from its siblings. If it is an About folder, it still adds its own all-`'N/A'` record. |
| Walker.AboutRecordPrecedesNested | check_repos.py:59-63 | Pre-order: an About folder's record comes right before the records found beneath it. |
| Walker.ManifestReadFailureDropsLaterSiblings | check_repos.py:52-65 | When an `about.xml` cannot be read, the listing gives exactly the records of the entries before that About folder, including when one of those raised. |
| Walker.HarvestIgnoresDeepTree | check_repos.py:41-61 | Cutting away every listing below level 4 gives the same records. Nothing deeper is ever looked at. |
| Catalog.VersionTexts | check_repos.py:113-114 | The string `'N/A'` is iterated as the three texts `N`, `/`, `A`. |
| Catalog.VersionElements | check_repos.py:113-114 | One `version` element per text, in order. |
| Catalog.RepositoryElements | check_repos.py:103-116 | One `repository` element per record, in record order. |
| Catalog.CatalogTree | check_repos.py:100-117 | The root is `repositories` with exactly one child per record, in record order. Each child is that record's `repository` element. |
| Catalog.GenerateXmlString | check_repos.py:100-117 | The outer `SubElement` loop builds exactly `CatalogTree`. |
| Catalog.BuildRepository | check_repos.py:104-115 | One pass of the outer loop, with the inner `version` loop, builds exactly that record's `repository` element. |
| Catalog.CatalogRoundTrip | check_repos.py:100-117 | Reading the catalog back gives every record, in order, with every field. Only the versions are flattened to the texts written. |
| Catalog.CatalogRoundTripExact | check_repos.py:100-117 | Records whose versions are a list come back exactly. |
| Catalog.MissingManifestPublishesPlaceholderCharacters | check_repos.py:113-114 | A record whose versions are the `'N/A'` string reads back with versions `N`, `/`, `A`. |
| Publish.PublishStep | check_repos.py:119-135 | Undisturbed, a publication never fails and leaves a file whose digest is the new one. It commits nothing exactly when the old file's digest equals the new one. A missing file is created, and a file is created only when, after any other writer, there is none. A differing digest updates against the SHA read. That update goes through exactly when the file, after any other writer, still exists with the same blob SHA. A failed read of an existing file, an update refused because someone else changed the file in between, or a file someone else created after the read found none, ends in the uncaught `create_file` error with nothing written. |
| Publish.RepublishIsNoOp | check_repos.py:125-131 | Publishing the same document twice in a row commits nothing the second time. |
| Publish.PublishedContent | check_repos.py:121-131 | After an undisturbed publication the file holds exactly the new bytes, unless the old bytes differ but have the same digest. |
| Publish.SameBytesRewriteStillUpdates | check_repos.py:125-131 | Another writer rewriting the file with the bytes it already had leaves its SHA unchanged, so the update still goes through. |
| Publish.ConcurrentChangeIsKept | check_repos.py:125-135 | When another writer replaces the file with bytes of a different SHA between the read and the update, the update is refused and `create_file` raises, so that writer's bytes stay. |
| Publish.HubRepository.GetContents | check_repos.py:123-124 | `get_contents` gives nothing exactly when there is no file. Otherwise it gives the bytes with their blob SHA. |
| Publish.HubRepository.UpdateFile | check_repos.py:129 | `update_file` succeeds exactly when the given SHA is the blob SHA of the current file, and then writes the content. Otherwise nothing changes. |
| Publish.HubRepository.CreateFile | check_repos.py:134 | `create_file` succeeds exactly when there is no file. Otherwise nothing changes. |
| Publish.WritePathsToXml | check_repos.py:119-135 | The method leaves the repository and returns the outcome exactly as `PublishStep` says. |
| Pipeline.Resolve | check_repos.py:139 | Submission succeeds exactly when every seed entry has two parts and names an existing repository; then there is one resolved repository per entry, in order. |
| Pipeline.Results | check_repos.py:139 | Each submitted walk yields the records of that repository's walk from its root at level 0. |
| Pipeline.FindAboutInfoParallel | check_repos.py:137-149 | The method returns exactly `Harvested`: `None` when submission aborts, else the walks' records in completion order. |
| Pipeline.GatherAppend | check_repos.py:141-146 | Extending in completion order is a concatenation. |
| Pipeline.GatherPermutation | check_repos.py:141-146 | Two completion orders with the same walks give the same records with the same multiplicities. |
| Pipeline.RecordsIndependentOfCompletionOrder | check_repos.py:141-146 | Any completion order gives the records of the walks taken in submission order, up to order. |
| Pipeline.CatalogDependsOnCompletionOrder | check_repos.py:141-146 | Two walks finishing in the other order give a different catalog document. |
| Pipeline.RunSpec | check_repos.py:151-156 | Only a publication changes the hub repository. An unreadable or empty seed list gives `NoRepositories`. The run aborts exactly when a non-empty seed list has an entry that cannot be resolved. It reports no records exactly when the walks find none. It publishes only a non-empty record list. What a publishing run does to the hub file is exactly `PublishStep` of the serialised catalog of the harvested records. |
| Pipeline.Run | check_repos.py:151-156 | `main` leaves the hub repository and returns the result exactly as `RunSpec` says. |
| Pipeline.RerunIsNoOp | check_repos.py:151-156 | A second run over unchanged repositories, undisturbed and with the same completion order, commits nothing. |

## Left out

- GitHub access through PyGithub (`get_repo`, `get_contents`, `update_file`, `create_file`) and the module-level client setup are not modelled as calls. Repositories are a map from full name to an id and a directory tree. The catalog file is a `HubRepository` object. The seed file is an optional text, `None` when reading or decoding it fails.
- `urlparse`: the URL's path component is a function parameter of `GetRepositoriesFromFile`. It returns `None` where `urlparse` raises.
- `ET.fromstring`: a file's content arrives parsed, with `None` for `ET.ParseError`.
- `ET.tostring` bytes (escaping, XML declaration) and MD5 are function parameters of `Run` and `WritePathsToXml`. The git blob hash that serves as a file's SHA is a parameter of the hub repository. Digest collisions are only named in `Publish.PublishedContent`.
- The thread pool: walks run one after another, and their completion order is a parameter `order`. Threads and timing are not modelled.
- Logging, and the commit messages passed to `update_file`/`create_file`.
- `github_rate_limit_exporter.py` is not part of this model. It has no logic shared with the harvester.
- Text.Lower: lowers ASCII letters only. Python's `lower()` also lowers other Unicode letters, which matters only for non-ASCII `About` folder or file names.
- Walker.SearchAboutFolder: an About folder is listed once, and that one listing serves the walk, the `about.xml` search and the preview search. The source lists the folder three times, and the three listings could differ if the repository changes during the run.
- RepoTree.FindAboutXml: returns the matching entry rather than its path. The file's content is taken from that entry instead of from a second `get_contents` call by path.
- Publish.PublishStep: at most one outside event happens per publication. It is either a failed read, or another writer creating, changing or deleting the file between the read and the write that follows it.
