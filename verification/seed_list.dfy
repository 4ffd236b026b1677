/**
 * The seed list: a text file of repository URLs, one per line, read from the
 * publishing repository. Blank lines are skipped, the rest are stripped, and
 * each URL's path component is cut at its first `/` into owner and name.
 * Fetching and UTF-8 decoding the file is one optional input (`None` when
 * either fails); `urlparse(url).path` is a function parameter.
 */
module SeedList {
  import opened Options
  import opened Text

  /** The line boundaries recognised by Python's `str.splitlines()`. */
  predicate IsLineBreak(c: char) {
    || ('\n' <= c <= '\r')
    || ('\U{1C}' <= c <= '\U{1E}')
    || c == '\U{85}' || c == '\U{2028}' || c == '\U{2029}'
  }

  /** The index of the first line boundary in `s`, or `|s|`. */
  function FirstBreak(s: Str): (k: nat)
    ensures k <= |s|
    ensures k < |s| ==> IsLineBreak(s[k])
    ensures Unbroken(s[..k])
  {
    if s == [] || IsLineBreak(s[0]) then 0
    else
      var k := 1 + FirstBreak(s[1..]);
      assert s[..k] == [s[0]] + s[1..][..k - 1];
      k
  }

  /** A line: no boundary inside. */
  predicate Unbroken(line: Str) {
    forall j :: 0 <= j < |line| ==> !IsLineBreak(line[j])
  }

  /**
   * Python's `str.splitlines()`: cuts at every boundary, `\r\n` counting as
   * one, with no empty line after a final boundary.
   */
  function SplitLines(s: Str): (lines: seq<Str>)
    ensures forall i :: 0 <= i < |lines| ==> Unbroken(lines[i])
    decreases |s|
  {
    if s == [] then []
    else
      var k := FirstBreak(s);
      if k == |s| then [s]
      else
        [s[..k]] + SplitLines(s[k + BreakWidth(s, k)..])
  }

  /** How many characters the boundary at `k` takes: two for `\r\n`, else one. */
  function BreakWidth(s: Str, k: nat): (w: nat)
    requires k < |s|
    ensures 1 <= w <= |s| - k
  {
    if s[k] == '\r' && k + 1 < |s| && s[k + 1] == '\n' then 2 else 1
  }

  /** Every line followed by a newline. */
  function Terminated(lines: seq<Str>): Str {
    if lines == [] then [] else lines[0] + "\n" + Terminated(lines[1..])
  }

  /** Text whose only line boundaries are `\n`. */
  predicate NewlinesOnly(s: Str) {
    forall i :: 0 <= i < |s| && IsLineBreak(s[i]) ==> s[i] == '\n'
  }

  lemma {:induction false} NewlinesOnlySuffix(s: Str, j: nat)
    requires NewlinesOnly(s) && j <= |s|
    ensures NewlinesOnly(s[j..])
  {
    forall i | 0 <= i < |s[j..]| && IsLineBreak(s[j..][i])
      ensures s[j..][i] == '\n'
    {
      assert s[j..][i] == s[j + i];
    }
  }

  lemma {:induction false} TerminatedCons(line: Str, lines: seq<Str>)
    ensures Terminated([line] + lines) == line + "\n" + Terminated(lines)
  {
    assert ([line] + lines)[0] == line && ([line] + lines)[1..] == lines;
  }

  /**
   * The text with every line boundary written as `\n`, `\r\n` counting as
   * one boundary: a reference, character by character, for what
   * `splitlines()` cuts at.
   */
  function Normalized(s: Str): (t: Str)
    ensures |t| <= |s|
  {
    if s == [] then []
    else if s[0] == '\r' && |s| > 1 && s[1] == '\n' then "\n" + Normalized(s[2..])
    else if IsLineBreak(s[0]) then "\n" + Normalized(s[1..])
    else [s[0]] + Normalized(s[1..])
  }

  /** `t` ending with a newline: one is appended unless `t` is empty or ends in one. */
  function Close(t: Str): Str {
    if t == [] || t[|t| - 1] == '\n' then t else t + "\n"
  }

  /**
   * What `splitlines()` means, for every text: the lines, each followed by
   * a newline, are the text with its boundaries normalised to `\n` (and a
   * final newline added when it lacked one). As no line holds a boundary,
   * this fixes the lines.
   */
  lemma {:induction false} SplitLinesMeaning(s: Str)
    ensures Terminated(SplitLines(s)) == Close(Normalized(s))
    decreases |s|
  {
    if s != [] {
      var k := FirstBreak(s);
      if k == |s| {
        OneLineMeaning(s);
      } else {
        var rest := s[k + BreakWidth(s, k)..];
        SplitLinesAtBreak(s);
        SplitLinesMeaning(rest);
        TerminatedCons(s[..k], SplitLines(rest));
        NormalizedAtFirstBreak(s);
        CloseCons(s[..k], Normalized(rest));
      }
    }
  }

  /** Text without a boundary is one line. */
  lemma {:induction false} OneLineMeaning(s: Str)
    requires s != [] && FirstBreak(s) == |s|
    ensures Terminated(SplitLines(s)) == Close(Normalized(s))
  {
    assert s[..|s|] == s;
    NormalizedUnbroken(s);
    assert SplitLines(s) == [s];
    TerminatedCons(s, []);
    assert !IsLineBreak(s[|s| - 1]);
  }

  /** The first line of a text with a boundary, and the lines after it. */
  lemma {:induction false} SplitLinesAtBreak(s: Str)
    requires FirstBreak(s) < |s|
    ensures var k := FirstBreak(s);
            SplitLines(s) == [s[..k]] + SplitLines(s[k + BreakWidth(s, k)..])
  {
  }

  /** Text with no boundary is its own normal form. */
  lemma {:induction false} NormalizedUnbroken(s: Str)
    requires Unbroken(s)
    ensures Normalized(s) == s
  {
    if s != [] {
      assert Unbroken(s[1..]) by {
        forall j | 0 <= j < |s[1..]|
          ensures !IsLineBreak(s[1..][j])
        {
          assert s[1..][j] == s[j + 1];
        }
      }
      NormalizedUnbroken(s[1..]);
      NormalizedCons(s);
      assert s == [s[0]] + s[1..];
    }
  }

  /** A character that is not a boundary is kept as it is. */
  lemma {:induction false} NormalizedCons(s: Str)
    requires s != [] && !IsLineBreak(s[0])
    ensures Normalized(s) == [s[0]] + Normalized(s[1..])
  {
  }

  /** Normalising up to the first boundary: the first line, a newline, then the rest normalised. */
  lemma {:induction false} NormalizedAtFirstBreak(s: Str)
    requires FirstBreak(s) < |s|
    ensures var k := FirstBreak(s);
            Normalized(s) == s[..k] + "\n" + Normalized(s[k + BreakWidth(s, k)..])
    decreases |s|
  {
    var k := FirstBreak(s);
    var n := Normalized(s[k + BreakWidth(s, k)..]);
    if k == 0 {
      NormalizedAtBreak(s);
      assert s[..k] + "\n" + n == "\n" + n;
    } else {
      var t := s[1..];
      FirstBreakOfTail(s);
      NormalizedAtFirstBreak(t);
      NormalizedCons(s);
      var line := t[..k - 1];
      assert Normalized(t) == line + "\n" + n;
      PrependToLine([s[0]], line, n);
    }
  }

  /** A boundary at the front becomes one newline. */
  lemma {:induction false} NormalizedAtBreak(s: Str)
    requires s != [] && IsLineBreak(s[0])
    ensures Normalized(s) == "\n" + Normalized(s[BreakWidth(s, 0)..])
  {
  }

  /** Past a first character that is not a boundary, the first boundary is one place earlier. */
  lemma {:induction false} FirstBreakOfTail(s: Str)
    requires 0 < FirstBreak(s) < |s|
    ensures var k := FirstBreak(s);
            && FirstBreak(s[1..]) == k - 1
            && s[1..][k - 1 + BreakWidth(s[1..], k - 1)..] == s[k + BreakWidth(s, k)..]
            && [s[0]] + s[1..][..k - 1] == s[..k]
  {
    var k := FirstBreak(s);
    assert s[1..][k - 1 + BreakWidth(s[1..], k - 1)..] == s[k + BreakWidth(s, k)..];
    assert [s[0]] + s[1..][..k - 1] == s[..k];
  }

  lemma {:induction false} PrependToLine(c: Str, line: Str, n: Str)
    ensures c + (line + "\n" + n) == c + line + "\n" + n
  {
    AppendAssoc(c, line, "\n" + n);
    AppendAssoc(c + line, "\n", n);
    AppendAssoc(line, "\n", n);
  }

  lemma {:induction false} CloseCons(line: Str, t: Str)
    ensures Close(line + "\n" + t) == line + "\n" + Close(t)
  {
    if t != [] {
      assert (line + "\n" + t)[|line + "\n" + t| - 1] == t[|t| - 1];
      if t[|t| - 1] != '\n' {
        assert line + "\n" + t + "\n" == line + "\n" + (t + "\n");
      }
    } else {
      assert line + "\n" + t == line + "\n";
    }
  }

  /**
   * For text whose only boundaries are `\n`, the lines put back together
   * give the text again (with a final newline added when it lacked one).
   */
  lemma {:induction false} SplitLinesRoundTrip(s: Str)
    requires NewlinesOnly(s)
    ensures Terminated(SplitLines(s)) == if s == [] || s[|s| - 1] == '\n' then s else s + "\n"
  {
    SplitLinesMeaning(s);
    NormalizedNewlinesOnly(s);
  }

  /** Text whose only boundaries are `\n` is its own normal form. */
  lemma {:induction false} NormalizedNewlinesOnly(s: Str)
    requires NewlinesOnly(s)
    ensures Normalized(s) == s
  {
    if s != [] {
      NewlinesOnlySuffix(s, 1);
      NormalizedNewlinesOnly(s[1..]);
      assert s == [s[0]] + s[1..];
    }
  }

  /** A non-empty string that `strip()` leaves as it is. */
  predicate IsStripped(s: Str) {
    s != [] && Strip(s) == s
  }

  /** `[line.strip() for line in lines if line.strip()]`. */
  function SeedLines(lines: seq<Str>): (r: seq<Str>)
    ensures forall i :: 0 <= i < |r| ==> IsStripped(r[i])
  {
    if lines == [] then []
    else
      var head := Kept(lines[0]);
      var tail := SeedLines(lines[1..]);
      head + tail
  }

  /** What one line contributes to the seed list. */
  function Kept(line: Str): (r: seq<Str>)
    ensures |r| <= 1
    ensures forall i :: 0 <= i < |r| ==> IsStripped(r[i])
  {
    var s := Strip(line);
    StripIdempotent(line);
    if s == [] then [] else [s]
  }

  /** One line contributes nothing when it is blank, and its stripped text otherwise. */
  lemma {:induction false} SeedLine(line: Str)
    ensures AllSpace(line) ==> SeedLines([line]) == []
    ensures !AllSpace(line) ==> SeedLines([line]) == [Strip(line)]
  {
    assert [line][1..] == [];
    assert SeedLines([line]) == Kept(line) + SeedLines([]);
    assert Kept(line) + [] == Kept(line);
  }

  /** Filtering works line by line, so the surviving lines keep their order. */
  lemma {:induction false} SeedLinesAppend(a: seq<Str>, b: seq<Str>)
    ensures SeedLines(a + b) == SeedLines(a) + SeedLines(b)
  {
    if a != [] {
      assert (a + b)[0] == a[0];
      assert (a + b)[1..] == a[1..] + b;
      SeedLinesAppend(a[1..], b);
      assert SeedLines(a + b) == Kept(a[0]) + SeedLines(a[1..] + b);
      assert SeedLines(a) == Kept(a[0]) + SeedLines(a[1..]);
      AppendAssoc(Kept(a[0]), SeedLines(a[1..]), SeedLines(b));
    } else {
      assert a + b == b;
    }
  }

  /**
   * `extract_owner_repo`, given the URL's path component: the path without
   * leading and trailing slashes, split at its first `/`.
   */
  function ExtractOwnerRepo(path: Str): (parts: seq<Str>)
    ensures 1 <= |parts| <= 2
    ensures '/' !in parts[0]
    ensures Join(parts, '/') == StripChar(path, '/')
    ensures |parts| == 2 <==> '/' in StripChar(path, '/')
    ensures |parts| == 2 ==> parts[0] != [] && parts[1] != [] && parts[1][|parts[1]| - 1] != '/'
  {
    var stripped := StripChar(path, '/');
    OwnerAndNameNonEmpty(stripped);
    SplitOnce(stripped, '/')
  }

  /** Splitting a string that neither starts nor ends with `/` at its first `/` leaves two non-empty parts. */
  lemma {:induction false} OwnerAndNameNonEmpty(stripped: Str)
    requires stripped != [] ==> stripped[0] != '/' && stripped[|stripped| - 1] != '/'
    ensures var parts := SplitOnce(stripped, '/');
            |parts| == 2 ==> parts[0] != [] && parts[1] != [] && parts[1][|parts[1]| - 1] != '/'
  {
    var parts := SplitOnce(stripped, '/');
    if |parts| == 2 {
      assert [parts[1]][1..] == [];
      assert stripped == parts[0] + "/" + parts[1];
      assert stripped[|parts[0]|] == '/';
      assert parts[1] == stripped[|parts[0]| + 1..];
    }
  }

  /**
   * The path component of the address `get_repo_url` builds, which is
   * `https://github.com` followed by this path. The script defines that
   * function but never calls it.
   */
  function RepoPath(owner: Str, name: Str): Str {
    "/" + owner + "/" + name
  }

  /**
   * The address `get_repo_url` builds is read back into the same owner and
   * name: extraction from its path gives `[owner, name]` whenever the owner
   * is non-empty without `/` and the name is non-empty and does not end
   * with `/`.
   */
  lemma {:induction false} RepoUrlRoundTrip(owner: Str, name: Str)
    requires owner != [] && '/' !in owner
    requires name != [] && name[|name| - 1] != '/'
    ensures ExtractOwnerRepo(RepoPath(owner, name)) == [owner, name]
  {
    var path := RepoPath(owner, name);
    var inner := owner + "/" + name;
    assert path == "/" + inner;
    assert path[1..] == inner;
    StripCharOne(path, '/');
    SplitAtFirstSlash(owner, name);
  }

  lemma {:induction false} SplitAtFirstSlash(owner: Str, name: Str)
    requires '/' !in owner
    ensures SplitOnce(owner + "/" + name, '/') == [owner, name]
  {
    var inner := owner + "/" + name;
    var k := IndexOf(inner, '/');
    assert inner[|owner|] == '/';
    assert k == |owner|;
    assert inner[..k] == owner && inner[k + 1..] == name;
  }

  /** Whether `urlparse` accepts every URL (it raises on a malformed one, such as an unbalanced `[`). */
  predicate AllParse(urls: seq<Str>, urlPath: Str -> Option<Str>) {
    forall i :: 0 <= i < |urls| ==> urlPath(urls[i]).Some?
  }

  /**
   * `get_repositories_from_file`: one entry per non-blank line. The one
   * handler covers reading the file and parsing every URL, so a file that
   * could not be fetched or decoded (`None`), or a single URL `urlparse`
   * rejects, gives the empty list.
   */
  function GetRepositoriesFromFile(content: Option<Str>, urlPath: Str -> Option<Str>): (repos: seq<seq<Str>>)
    ensures content.None? ==> repos == []
    ensures content.Some? && !AllParse(SeedLines(SplitLines(content.value)), urlPath) ==> repos == []
    ensures content.Some? && AllParse(SeedLines(SplitLines(content.value)), urlPath) ==>
      var urls := SeedLines(SplitLines(content.value));
      && |repos| == |urls|
      && forall i :: 0 <= i < |repos| ==> repos[i] == ExtractOwnerRepo(urlPath(urls[i]).value)
  {
    match content
    case None => []
    case Some(text) =>
      match OwnerRepos(SeedLines(SplitLines(text)), urlPath)
      case None => []
      case Some(repos) => repos
  }

  /** `[extract_owner_repo(url) for url in urls]`, or `None` when `urlparse` raises on one of them. */
  function OwnerRepos(urls: seq<Str>, urlPath: Str -> Option<Str>): (repos: Option<seq<seq<Str>>>)
    ensures repos.Some? <==> AllParse(urls, urlPath)
    ensures repos.Some? ==> |repos.value| == |urls|
    ensures repos.Some? ==>
      forall i :: 0 <= i < |urls| ==> repos.value[i] == ExtractOwnerRepo(urlPath(urls[i]).value)
  {
    if urls == [] then Some([])
    else
      AllParseCons(urls, urlPath);
      match urlPath(urls[0])
      case None => None
      case Some(path) =>
        match OwnerRepos(urls[1..], urlPath)
        case None => None
        case Some(rest) => Some([ExtractOwnerRepo(path)] + rest)
  }

  /** `urlparse` accepts a list of URLs when it accepts the first and all the others. */
  lemma {:induction false} AllParseCons(urls: seq<Str>, urlPath: Str -> Option<Str>)
    requires urls != []
    ensures AllParse(urls, urlPath) <==> urlPath(urls[0]).Some? && AllParse(urls[1..], urlPath)
  {
    if urlPath(urls[0]).Some? && AllParse(urls[1..], urlPath) {
      forall i | 1 <= i < |urls|
        ensures urlPath(urls[i]).Some?
      {
        assert urls[i] == urls[1..][i - 1];
      }
    }
    if AllParse(urls, urlPath) {
      forall i | 0 <= i < |urls[1..]|
        ensures urlPath(urls[1..][i]).Some?
      {
        assert urls[1..][i] == urls[i + 1];
      }
    }
  }

  /** A seed text with no non-blank line yields no repositories. */
  lemma {:induction false} BlankSeedGivesNoRepositories(lines: seq<Str>)
    requires forall i :: 0 <= i < |lines| ==> AllSpace(lines[i])
    ensures SeedLines(lines) == []
  {
    if lines != [] {
      SeedLinesAppend([lines[0]], lines[1..]);
      assert lines == [lines[0]] + lines[1..];
      SeedLine(lines[0]);
      BlankSeedGivesNoRepositories(lines[1..]);
    }
  }
}
