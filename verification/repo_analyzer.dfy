/** The repository analyser: reading `owner/repo` out of a GitHub URL, the
    extension allow-list, the bounded walk over the repository tree, and the
    suggestions drawn from the root listing.

    The GitHub API is not modelled: the tree the API would list is an input,
    and so is the per-file code analyser. */
module RepoAnalyzer {
  import opened Text
  import Urls

  // ---------------------------------------------------------------------------
  // parse_repo_url

  function ParseFailure(cleaned: string): string {
    "Could not parse repository URL: " + cleaned
  }

  /** The first two parts of a split string, with the separator between
      them, begin the string. */
  lemma SplitStartsWith(s: string, c: char)
    requires |Split(s, c)| >= 2
    ensures StartsWith(s, Split(s, c)[0] + [c] + Split(s, c)[1])
  {
    var parts := Split(s, c);
    JoinSplit(s, c);
    var tail := Join(parts[1..], [c]);
    assert s == parts[0] + [c] + tail;
    if |parts[1..]| > 1 {
      assert tail == parts[1] + [c] + Join(parts[2..], [c]);
    }
    assert s[..|parts[0] + [c] + parts[1]|] == parts[0] + [c] + parts[1];
  }

  /** The part of `parse_repo_url` after the URL has been cleaned: the host
      must be exactly `github.com` and the path, without its outer slashes,
      must have at least two segments. Every failure, including the parser's
      own, becomes the same `ValueError` message. */
  function ParseCleaned(cleaned: string): (r: Result<(string, string)>)
    ensures r.Err? ==> r.error == ParseFailure(cleaned)
    ensures r.Ok? <==> && Urls.UrlSplit(cleaned).Ok?
                       && Urls.Hostname(Urls.UrlSplit(cleaned).value.netloc) == Some("github.com")
                       && |Split(StripChar(Urls.UrlSplit(cleaned).value.path, '/'), '/')| >= 2
    ensures r.Ok? ==> var segments := Split(StripChar(Urls.UrlSplit(cleaned).value.path, '/'), '/');
                      r.value == (segments[0], segments[1])
    ensures r.Ok? ==> && Urls.UrlSplit(cleaned).Ok?
                      && Urls.Hostname(Urls.UrlSplit(cleaned).value.netloc) == Some("github.com")
    ensures r.Ok? ==> && '/' !in r.value.0 && '/' !in r.value.1
                      && StartsWith(StripChar(Urls.UrlSplit(cleaned).value.path, '/'), r.value.0 + "/" + r.value.1)
  {
    match Urls.UrlSplit(cleaned)
    case Err(_) => Err(ParseFailure(cleaned))
    case Ok(parts) =>
      if Urls.Hostname(parts.netloc) == Some("github.com") then
        var trimmed := StripChar(parts.path, '/');
        var segments := Split(trimmed, '/');
        if |segments| >= 2 then
          SplitStartsWith(trimmed, '/');
          Ok((segments[0], segments[1]))
        else Err(ParseFailure(cleaned))
      else Err(ParseFailure(cleaned))
  }

  /** `parse_repo_url` as written: trailing slashes are stripped and then
      every `.git` is removed, wherever it occurs. */
  function ParseRepoUrl(repoUrl: string): (r: Result<(string, string)>)
    ensures r.Err? ==> r.error == ParseFailure(Replace(RStripChar(repoUrl, '/'), ".git", ""))
  {
    ParseCleaned(Replace(RStripChar(repoUrl, '/'), ".git", ""))
  }

  /** The repository URL a user would paste. */
  function RepoUrl(owner: string, repo: string): string {
    GitHubPrefix + owner + "/" + repo
  }

  /** Owner and repository names that survive the URL unchanged. */
  predicate PlainSegment(s: string) {
    s != [] && '/' !in s && '?' !in s && '#' !in s
  }

  /** An authority with no user information, port or zone index. */
  predicate PlainHost(host: string) {
    && |host| > 0 && '@' !in host && '[' !in host && ']' !in host && ':' !in host && '%' !in host
    && '/' !in host && '?' !in host && '#' !in host
  }

  lemma PlainHostname(host: string)
    requires PlainHost(host)
    ensures Urls.Hostname(host) == Some(Lower(host))
  {
    Urls.HostnameOfAuthority([], host, []);
  }

  lemma GitHubIsPlain()
    ensures PlainHost("github.com")
  {
  }

  lemma GitHubLower()
    ensures Lower("github.com") == "github.com"
  {
    LowerUnchanged("github.com");
  }

  lemma GitHubHostname()
    ensures Urls.Hostname("github.com") == Some("github.com")
  {
    GitHubIsPlain();
    GitHubLower();
    PlainHostname("github.com");
  }

  lemma HttpsScheme()
    ensures Urls.IsScheme("https") && ':' !in "https" && Lower("https") == "https"
  {
    LowerUnchanged("https");
  }

  lemma LStripOne(inner: string)
    requires inner != [] && inner[0] != '/'
    ensures LStripChar("/" + inner, '/') == inner
  {
    assert ("/" + inner)[1..] == inner;
  }

  lemma RStripNone(owner: string, repo: string)
    requires PlainSegment(owner) && PlainSegment(repo)
    ensures RStripChar(owner + "/" + repo, '/') == owner + "/" + repo
  {
    var inner := owner + "/" + repo;
    assert repo[|repo| - 1] in repo;
    assert inner[|inner| - 1] == repo[|repo| - 1];
  }

  lemma StripSlashes(owner: string, repo: string)
    requires PlainSegment(owner) && PlainSegment(repo)
    ensures StripChar("/" + owner + "/" + repo, '/') == owner + "/" + repo
  {
    assert owner[0] in owner;
    assert "/" + owner + "/" + repo == "/" + (owner + "/" + repo);
    LStripOne(owner + "/" + repo);
    RStripNone(owner, repo);
  }

  lemma SplitOwnerRepo(owner: string, repo: string)
    requires PlainSegment(owner) && PlainSegment(repo)
    ensures Split(owner + "/" + repo, '/') == [owner, repo]
  {
    SplitCons(owner, repo, '/');
    SplitWithout(repo, '/');
  }

  /** A URL assembled from a scheme, the host `github.com` and the path
      `/owner/repo` parses back into the two names. */
  lemma ParseAssembled(scheme: string, host: string, owner: string, repo: string)
    requires Urls.IsScheme(scheme) && ':' !in scheme
    requires PlainHost(host) && Urls.Hostname(host) == Some("github.com")
    requires PlainSegment(owner) && PlainSegment(repo)
    ensures ParseCleaned(scheme + "://" + host + "/" + owner + "/" + repo) == Ok((owner, repo))
  {
    var path := "/" + owner + "/" + repo;
    assert '?' !in path && '#' !in path;
    Urls.SplitAssembled(scheme, host, path);
    PathAfter(scheme + "://" + host, owner, repo);
    StripSlashes(owner, repo);
    SplitOwnerRepo(owner, repo);
  }

  /** The cleaned URL of `owner/repo` parses back into the two names. */
  lemma ParseCleanedRoundTrip(owner: string, repo: string)
    requires PlainSegment(owner) && PlainSegment(repo)
    ensures ParseCleaned(RepoUrl(owner, repo)) == Ok((owner, repo))
  {
    GitHubHostname();
    GitHubIsPlain();
    HttpsScheme();
    ParseAssembled("https", "github.com", owner, repo);
    PrefixPieces();
  }

  lemma PathAfter(front: string, owner: string, repo: string)
    ensures front + ("/" + owner + "/" + repo) == front + "/" + owner + "/" + repo
  {
  }

  lemma PrefixPieces()
    ensures "https" + "://" + "github.com" + "/" == GitHubPrefix
  {
  }

  const GitHubPrefix: string := "https://github.com/"

  /** In the URL prefix no `.` is followed by `g`. */
  lemma PrefixCharacters()
    ensures |GitHubPrefix| == 19 && GitHubPrefix[18] == '/'
    ensures forall i :: 0 <= i < 18 ==> !(GitHubPrefix[i] == '.' && GitHubPrefix[i + 1] == 'g')
  {
  }

  /** No `.git` starts where no `.` is followed by `g`. */
  lemma NoGitWhere(s: string, n: nat)
    requires n <= |s|
    requires forall i :: 0 <= i < n && i + 1 < |s| ==> !(s[i] == '.' && s[i + 1] == 'g')
    ensures forall i: nat :: i < n ==> !OccursAt(s, ".git", i)
  {
    forall i: nat | i < n
      ensures !OccursAt(s, ".git", i)
    {
      if i + 4 <= |s| {
        assert s[i..i + 4][0] == s[i] && s[i..i + 4][1] == s[i + 1];
      }
    }
  }

  /** No `.git` starts inside the URL prefix, whatever follows it. */
  lemma NoGitInPrefix(rest: string)
    ensures forall i: nat :: i < |GitHubPrefix| ==> !OccursAt(GitHubPrefix + rest, ".git", i)
  {
    var s := GitHubPrefix + rest;
    PrefixCharacters();
    assert forall i :: 0 <= i < |GitHubPrefix| ==> s[i] == GitHubPrefix[i];
    NoGitWhere(s, |GitHubPrefix|);
  }

  lemma RStripNothing(s: string, c: char)
    requires s != [] && s[|s| - 1] != c
    ensures RStripChar(s, c) == s
  {
  }

  /** A URL whose owner and repository hold no `.git` parses into them. */
  lemma ParseRepoUrlRoundTrip(owner: string, repo: string)
    requires PlainSegment(owner) && PlainSegment(repo)
    requires !Contains(owner + "/" + repo, ".git")
    ensures ParseRepoUrl(RepoUrl(owner, repo)) == Ok((owner, repo))
  {
    var rest := owner + "/" + repo;
    var url := RepoUrl(owner, repo);
    assert url == GitHubPrefix + rest;
    assert repo[|repo| - 1] in repo;
    RStripNothing(url, '/');
    NoGitInUrl(rest);
    ParseCleanedRoundTrip(owner, repo);
  }

  /** No `.git` occurs in the prefix followed by a path that has none. */
  lemma NoGitInUrl(rest: string)
    requires !Contains(rest, ".git")
    ensures !Contains(GitHubPrefix + rest, ".git")
  {
    var url := GitHubPrefix + rest;
    NoGitInPrefix(rest);
    ContainsAt(rest, ".git");
    forall i: nat | i >= |GitHubPrefix|
      ensures !OccursAt(url, ".git", i)
    {
      if i + 4 <= |url| {
        assert url[i..i + 4] == rest[i - |GitHubPrefix|..i - |GitHubPrefix| + 4];
        assert !OccursAt(rest, ".git", i - |GitHubPrefix|);
      }
    }
    ContainsAt(url, ".git");
  }

  /** A `.git` inside the repository name is cut out as well, so the name
      that comes back is not the one in the URL. */
  lemma GitInsideNameLost(owner: string, x: string, y: string)
    requires PlainSegment(owner) && '.' !in owner
    requires '/' !in x && '?' !in x && '#' !in x && '.' !in x
    requires PlainSegment(y) && !Contains(y, ".git")
    ensures ParseRepoUrl(RepoUrl(owner, x + ".git" + y)) == Ok((owner, x + y))
  {
    GitCutFromUrl(owner, x, y);
    ParseCleanedRoundTrip(owner, x + y);
  }

  /** Cleaning the URL of `owner/x.gity` gives the URL of `owner/xy`. */
  lemma GitCutFromUrl(owner: string, x: string, y: string)
    requires PlainSegment(owner) && '.' !in owner
    requires '/' !in x && '?' !in x && '#' !in x && '.' !in x
    requires PlainSegment(y) && !Contains(y, ".git")
    ensures Replace(RStripChar(RepoUrl(owner, x + ".git" + y), '/'), ".git", "") == RepoUrl(owner, x + y)
  {
    var front := GitHubPrefix + owner + "/" + x;
    var url := RepoUrl(owner, x + ".git" + y);
    UrlAround(front, owner, x, y);
    RStripNothing(url, '/');
    NoGitInFront(owner, x, y);
    ReplaceSkip(front, ".git" + y, ".git", "");
    ReplaceAtFront(y, ".git", "");
  }

  lemma UrlAround(front: string, owner: string, x: string, y: string)
    requires front == GitHubPrefix + owner + "/" + x && y != []
    ensures RepoUrl(owner, x + ".git" + y) == front + (".git" + y)
    ensures RepoUrl(owner, x + y) == front + ([] + y)
    ensures RepoUrl(owner, x + ".git" + y)[|RepoUrl(owner, x + ".git" + y)| - 1] == y[|y| - 1]
  {
  }

  lemma NoGitInFront(owner: string, x: string, y: string)
    requires '.' !in owner && '.' !in x
    ensures var front := GitHubPrefix + owner + "/" + x;
      forall i: nat :: i < |front| ==> !OccursAt(front + (".git" + y), ".git", i)
  {
    var middle := owner + "/" + x;
    var front := GitHubPrefix + middle;
    var url := front + (".git" + y);
    assert GitHubPrefix + owner + "/" + x == front;
    NoGitInPrefix(middle + (".git" + y));
    assert url == GitHubPrefix + (middle + (".git" + y));
    forall i: nat | |GitHubPrefix| <= i < |front|
      ensures !OccursAt(url, ".git", i)
    {
      assert url[i] == middle[i - |GitHubPrefix|];
      assert middle[i - |GitHubPrefix|] in middle;
    }
  }

  /** The GitHub Pages repository `octocat/octocat.github.io` comes back as
      `octocathub.io`. */
  lemma PagesRepositoryMangled(owner: string, x: string, y: string)
    requires owner == "octocat" && x == "octocat" && y == "hub.io"
    ensures x + ".git" + y == "octocat.github.io"
    ensures ParseRepoUrl(RepoUrl(owner, x + ".git" + y)) == Ok(("octocat", "octocathub.io"))
  {
    PagesPieces(owner, x, y);
    PagesJoined(x, y);
    GitInsideNameLost(owner, x, y);
  }

  lemma PagesPieces(owner: string, x: string, y: string)
    requires owner == "octocat" && x == "octocat" && y == "hub.io"
    ensures PlainSegment(owner) && '.' !in owner
    ensures '/' !in x && '?' !in x && '#' !in x && '.' !in x
    ensures PlainSegment(y) && !Contains(y, ".git")
  {
    NoGitWhere(y, |y|);
    ContainsAt(y, ".git");
  }

  lemma PagesJoined(x: string, y: string)
    requires x == "octocat" && y == "hub.io"
    ensures x + ".git" + y == "octocat.github.io"
    ensures x + y == "octocathub.io"
  {
  }

  /** `parse_repo_url` as evidently intended: only a final `.git` is removed. */
  function ParseRepoUrlFixed(repoUrl: string): (r: Result<(string, string)>)
    ensures r.Err? ==> r.error == ParseFailure(RemoveSuffix(RStripChar(repoUrl, '/'), ".git"))
  {
    ParseCleaned(FixedCleaning(repoUrl))
  }

  /** The corrected cleaning: trailing `/` stripped, then one trailing `.git`. */
  function FixedCleaning(repoUrl: string): string {
    RemoveSuffix(RStripChar(repoUrl, '/'), ".git")
  }

  /** The corrected cleaning brings each accepted spelling of the URL back to
      the plain one. */
  lemma FixedCleansRepoUrl(owner: string, repo: string)
    requires PlainSegment(owner) && PlainSegment(repo) && !EndsWith(repo, ".git")
    ensures FixedCleaning(RepoUrl(owner, repo)) == RepoUrl(owner, repo)
    ensures FixedCleaning(RepoUrl(owner, repo) + "/") == RepoUrl(owner, repo)
    ensures FixedCleaning(RepoUrl(owner, repo + ".git")) == RepoUrl(owner, repo)
  {
    var url := RepoUrl(owner, repo);
    assert repo[|repo| - 1] in repo;
    RStripNothing(url, '/');
    assert RStripChar(url + "/", '/') == url by {
      assert (url + "/")[..|url + "/"| - 1] == url;
    }
    NoGitEnding(owner, repo);
    var dotted := RepoUrl(owner, repo + ".git");
    assert dotted == url + ".git";
    RStripNothing(dotted, '/');
    assert dotted[|dotted| - 4..] == ".git";
    assert dotted[..|dotted| - 4] == url;
  }

  /** A repository name that does not end in `.git` gives a URL that does
      not end in it either: the separator `/` falls inside the last four
      characters when the name is short. */
  lemma NoGitEnding(owner: string, repo: string)
    requires PlainSegment(owner) && PlainSegment(repo) && !EndsWith(repo, ".git")
    ensures !EndsWith(RepoUrl(owner, repo), ".git")
  {
    var url := RepoUrl(owner, repo);
    if |repo| >= 4 {
      assert url[|url| - 4..] == repo[|repo| - 4..];
    } else {
      var j := 3 - |repo|;
      assert url[|url| - |repo| - 1] == '/';
      assert url[|url| - 4..][j] == '/';
      assert ".git"[j] != '/';
    }
  }

  /** The corrected parser reads `owner/repo` back from the URL, with or
      without a final `.git` or `/`, whatever `.git` the name holds inside. */
  lemma ParseRepoUrlFixedRoundTrip(owner: string, repo: string)
    requires PlainSegment(owner) && PlainSegment(repo) && !EndsWith(repo, ".git")
    ensures ParseRepoUrlFixed(RepoUrl(owner, repo)) == Ok((owner, repo))
    ensures ParseRepoUrlFixed(RepoUrl(owner, repo) + "/") == Ok((owner, repo))
    ensures ParseRepoUrlFixed(RepoUrl(owner, repo + ".git")) == Ok((owner, repo))
  {
    FixedCleansRepoUrl(owner, repo);
    ParseCleanedRoundTrip(owner, repo);
  }

  /** The corrected parser returns the GitHub Pages repository's own name. */
  lemma PagesRepositoryKept(owner: string, repo: string)
    requires owner == "octocat" && repo == "octocat.github.io"
    ensures ParseRepoUrlFixed(RepoUrl(owner, repo)) == Ok((owner, repo))
  {
    assert repo[|repo| - 4..] == "b.io";
    ParseRepoUrlFixedRoundTrip(owner, repo);
  }

  // ---------------------------------------------------------------------------
  // _get_file_extension and _should_analyze_file

  /** `_get_file_extension`: the lower-cased text after the last `.`, or
      nothing when the name has no `.`. */
  function FileExtension(filename: string): (ext: string)
    ensures '.' !in ext
    ensures '.' !in filename ==> ext == []
    ensures '.' in filename ==> AfterLastDot(filename, ext)
  {
    if '.' in filename then
      var parts := Split(filename, '.');
      SplitLast(filename, '.');
      var last := parts[|parts| - 1];
      var ext := Lower(last);
      DotBeforeEnd(filename, last, ext);
      ext
    else []
  }

  /** `ext` is the lower-cased end of the name that follows a dot. */
  predicate AfterLastDot(filename: string, ext: string) {
    && |ext| < |filename|
    && filename[|filename| - |ext| - 1] == '.'
    && ext == Lower(filename[|filename| - |ext|..])
  }

  /** A dot-free end of a name that holds a dot follows a dot; lower-casing
      keeps both facts. */
  lemma DotBeforeEnd(filename: string, last: string, ext: string)
    requires '.' in filename && '.' !in last && EndsWith(filename, last)
    requires |last| < |filename| ==> filename[|filename| - |last| - 1] == '.'
    requires ext == Lower(last)
    ensures '.' !in ext && AfterLastDot(filename, ext)
  {
    EndShorter(filename, last);
    TailAfterDot(filename, last, ext);
    LowerKeepsDots(last);
  }

  /** The lower-cased end of a name right after a dot is its extension. */
  lemma TailAfterDot(filename: string, last: string, ext: string)
    requires |last| < |filename| && EndsWith(filename, last)
    requires filename[|filename| - |last| - 1] == '.'
    requires ext == Lower(last)
    ensures AfterLastDot(filename, ext)
  {
    DotBeforeTail(filename, last, ext);
    LowerTail(filename, last, ext);
  }

  /** The dot before the end is the dot before the extension. */
  lemma DotBeforeTail(filename: string, last: string, ext: string)
    requires |last| < |filename|
    requires filename[|filename| - |last| - 1] == '.'
    requires |ext| == |last|
    ensures |ext| < |filename| && filename[|filename| - |ext| - 1] == '.'
  {
  }

  /** The extension is the lower-cased slice of its own length. */
  lemma LowerTail(filename: string, last: string, ext: string)
    requires |last| <= |filename| && EndsWith(filename, last)
    requires ext == Lower(last)
    ensures |ext| <= |filename| && ext == Lower(filename[|filename| - |ext|..])
  {
    SameTail(filename, last, |ext|);
  }

  /** An end of the name is the slice of its own length. */
  lemma SameTail(filename: string, last: string, n: nat)
    requires n == |last| <= |filename| && EndsWith(filename, last)
    ensures filename[|filename| - n..] == last
  {
  }

  /** A dot-free end of a name that holds a dot is shorter than the name. */
  lemma EndShorter(filename: string, last: string)
    requires '.' in filename && '.' !in last && EndsWith(filename, last)
    ensures |last| < |filename|
  {
    var n := |filename| - |last|;
    forall j | n <= j < |filename|
      ensures filename[j] != '.'
    {
      assert filename[j] == last[j - n];
    }
  }

  /** Lower-casing neither adds nor removes dots. */
  lemma LowerKeepsDots(s: string)
    requires '.' !in s
    ensures '.' !in Lower(s)
  {
    forall i | 0 <= i < |s|
      ensures Lower(s)[i] != '.'
    {
      assert s[i] != '.';
    }
  }

  /** The text after the last dot is the extension, lower-cased. */
  lemma ExtensionOf(base: string, ext: string)
    requires '.' !in ext
    ensures FileExtension(base + "." + ext) == Lower(ext)
  {
    var name := base + "." + ext;
    assert name[|base|] == '.';
    LastPartAfterDot(base, ext);
  }

  /** The last part of `base.ext` split at dots is `ext`. */
  lemma LastPartAfterDot(base: string, ext: string)
    requires '.' !in ext
    ensures var parts := Split(base + "." + ext, '.'); |parts| > 0 && parts[|parts| - 1] == ext
  {
    SplitAround(base, ext, '.');
    SplitWithout(ext, '.');
    LastOfAppend(Split(base, '.'), ext);
  }

  const AnalyzableExtensions: seq<string> := [
    "py", "js", "ts", "jsx", "tsx", "java", "cpp", "c", "h",
    "cs", "php", "rb", "go", "rs", "swift", "kt", "scala",
    "html", "css", "scss", "less", "json", "xml", "yaml", "yml",
    "md", "txt", "sh", "bash", "sql", "dockerfile"]

  /** `x` is one of `xs`, checked one element at a time. */
  predicate Among(x: string, xs: seq<string>)
    decreases |xs|
  {
    xs != [] && (xs[0] == x || Among(x, xs[1..]))
  }

  lemma {:induction false} AmongIsIn(x: string, xs: seq<string>)
    ensures Among(x, xs) <==> x in xs
    decreases |xs|
  {
    if xs != [] {
      AmongIsIn(x, xs[1..]);
      assert xs == [xs[0]] + xs[1..];
    }
  }

  /** `_should_analyze_file` */
  predicate ShouldAnalyze(extension: string) {
    Among(extension, AnalyzableExtensions)
  }

  /** A name without a dot, such as `Dockerfile` or `Makefile`, has no
      extension and is never analysed. */
  lemma DotlessNeverAnalyzed(filename: string)
    requires '.' !in filename
    ensures !ShouldAnalyze(FileExtension(filename))
  {
    EmptyNotListed(FileExtension(filename));
  }

  lemma EmptyNotListed(ext: string)
    requires ext == []
    ensures !ShouldAnalyze(ext)
  {
    NoEmptyExtension();
    NoneEmptyNotAmong(AnalyzableExtensions);
  }

  lemma NoEmptyExtension()
    ensures forall k :: 0 <= k < |AnalyzableExtensions| ==> AnalyzableExtensions[k] != []
  {
  }

  lemma {:induction false} NoneEmptyNotAmong(xs: seq<string>)
    requires forall k :: 0 <= k < |xs| ==> xs[k] != []
    ensures !Among([], xs)
    decreases |xs|
  {
    if xs != [] {
      NoneEmptyNotAmong(xs[1..]);
    }
  }

  /** A name ending in `.Dockerfile`, in any case, is analysed. */
  lemma DockerfileSuffixAnalyzed(base: string, ext: string)
    requires ext == "Dockerfile"
    ensures ShouldAnalyze(FileExtension(base + "." + ext))
  {
    ExtensionOf(base, ext);
    DockerfileListed(ext);
  }

  lemma DockerfileListed(ext: string)
    requires ext == "Dockerfile"
    ensures ShouldAnalyze(Lower(ext))
  {
    assert Lower(ext) == "dockerfile";
    AmongIsIn("dockerfile", AnalyzableExtensions);
    assert AnalyzableExtensions[30] == "dockerfile";
  }

  // ---------------------------------------------------------------------------
  // The walk in _analyze_repository_contents

  /** An entry of a directory listing. `listable` is false when fetching the
      directory's own listing fails (its `children` are then never seen);
      `text` is `None` when the content could not be read as UTF-8. */
  datatype Entry =
    | Dir(name: string, path: string, children: seq<Entry>, listable: bool)
    | File(name: string, path: string, size: int, text: Option<string>)

  const MaxFiles: nat := 20
  const MaxFileBytes: int := 100000

  /** The number of entries in a tree: the walk's termination measure. */
  function Weight(e: Entry): nat
    decreases e, 1
  {
    match e
    case Dir(_, _, children, _) => 1 + WeightAll(children)
    case File(_, _, _, _) => 1
  }

  function WeightAll(es: seq<Entry>): nat
    decreases es, 0
  {
    if es == [] then 0 else Weight(es[0]) + WeightAll(es[1..])
  }

  lemma {:induction false} WeightAllAppend(a: seq<Entry>, b: seq<Entry>)
    ensures WeightAll(a + b) == WeightAll(a) + WeightAll(b)
    decreases |a|
  {
    if a == [] {
      assert a + b == b;
    } else {
      assert (a + b)[1..] == a[1..] + b;
      WeightAllAppend(a[1..], b);
    }
  }

  /** `e` is listed somewhere in the tree under `es`. */
  predicate InForest(e: Entry, es: seq<Entry>)
    decreases es
  {
    exists i :: 0 <= i < |es| && (es[i] == e || (es[i].Dir? && es[i].listable && InForest(e, es[i].children)))
  }

  lemma {:induction false} ChildInForest(d: Entry, es: seq<Entry>, k: nat)
    requires InForest(d, es) && d.Dir? && d.listable && k < |d.children|
    ensures InForest(d.children[k], es)
    decreases es
  {
    var i :| 0 <= i < |es| && (es[i] == d || (es[i].Dir? && es[i].listable && InForest(d, es[i].children)));
    if es[i] == d {
      assert InForest(d.children[k], d.children);
    } else {
      ChildInForest(d, es[i].children, k);
    }
  }

  /** A file the walk hands to the analyser. */
  predicate Analyzable(e: Entry) {
    e.File? && e.size <= MaxFileBytes && ShouldAnalyze(FileExtension(e.name)) && e.text.Some?
  }

  /** The per-file code analyser: the issues it reports for a file's name,
      text and extension, or the text of the exception it raised. */
  type Analyzer<I> = (string, string, string) -> Result<seq<I>>

  /** The analyser's answer for a file. */
  function AnalysisOf<I>(e: Entry, analyze: Analyzer<I>): Result<seq<I>>
    requires e.File? && e.text.Some?
  {
    analyze(e.name, e.text.value, FileExtension(e.name))
  }

  /** A file the walk counts: analysable, and the analyser did not raise
      (an exception is caught and the file skipped). */
  predicate Counted<I>(e: Entry, analyze: Analyzer<I>) {
    Analyzable(e) && AnalysisOf(e, analyze).Ok?
  }

  /** The issues the analyser reports for the visited files, in visit order. */
  function IssuesOf<I>(visited: seq<Entry>, analyze: Analyzer<I>): seq<I>
    requires forall k :: 0 <= k < |visited| ==> Counted(visited[k], analyze)
  {
    if visited == [] then []
    else
      var last, init := visited[|visited| - 1], visited[..|visited| - 1];
      assert forall k :: 0 <= k < |init| ==> init[k] == visited[k];
      assert Counted(visited[|visited| - 1], analyze);
      IssuesOf(init, analyze) + AnalysisOf(last, analyze).value
  }

  /** The `file_analysis` dictionary the analysed files leave behind, in
      analysis order: a non-empty result is recorded under its file's path. */
  function CountsOf<I>(visited: seq<Entry>, analyze: Analyzer<I>): seq<(string, nat)>
    requires forall k :: 0 <= k < |visited| ==> Counted(visited[k], analyze)
  {
    if visited == [] then []
    else
      var last, init := visited[|visited| - 1], visited[..|visited| - 1];
      assert forall k :: 0 <= k < |init| ==> init[k] == visited[k];
      assert Counted(visited[|visited| - 1], analyze);
      Record(CountsOf(init, analyze), last, analyze)
  }

  /** `if file_issues: file_analysis[path] = len(file_issues)` for one
      analysed file. */
  function Record<I>(d: seq<(string, nat)>, e: Entry, analyze: Analyzer<I>): (r: seq<(string, nat)>)
    requires Counted(e, analyze)
    ensures var found := AnalysisOf(e, analyze).value;
      && (forall p :: p in r ==> p in d || (found != [] && p == (e.path, |found|)))
      && (found != [] ==> (e.path, |found|) in r)
      && (forall p :: p in d && p.0 != e.path ==> p in r)
      && (found == [] ==> r == d)
      && (UniqueKeys(d) ==> UniqueKeys(r))
  {
    var found := AnalysisOf(e, analyze).value;
    if found != [] then DictSet(d, e.path, |found|) else d
  }

  /** `file_analysis[path] = n`, keeping the dictionary's insertion order. */
  function DictSet(d: seq<(string, nat)>, key: string, value: nat): (r: seq<(string, nat)>)
    ensures (key, value) in r
    ensures forall p :: p in r ==> p in d || p == (key, value)
    ensures forall p :: p in d && p.0 != key ==> p in r
    ensures UniqueKeys(d) ==> UniqueKeys(r)
  {
    if d == [] then [(key, value)]
    else if d[0].0 == key then
      UniqueReplaceHead(d, (key, value));
      [(key, value)] + d[1..]
    else
      var rest := DictSet(d[1..], key, value);
      UniqueKeepHead(d, key, value, rest);
      [d[0]] + rest
  }

  lemma UniqueReplaceHead(d: seq<(string, nat)>, p: (string, nat))
    requires d != [] && d[0].0 == p.0
    ensures UniqueKeys(d) ==> UniqueKeys([p] + d[1..])
  {
    var r := [p] + d[1..];
    if UniqueKeys(d) {
      forall i, j | 0 <= i < j < |r|
        ensures r[i].0 != r[j].0
      {
        assert r[j] == d[j];
        if i > 0 { assert r[i] == d[i]; }
      }
    }
  }

  lemma UniqueKeepHead(d: seq<(string, nat)>, key: string, value: nat, rest: seq<(string, nat)>)
    requires d != [] && d[0].0 != key
    requires forall p :: p in rest ==> p in d[1..] || p == (key, value)
    requires UniqueKeys(d[1..]) ==> UniqueKeys(rest)
    ensures UniqueKeys(d) ==> UniqueKeys([d[0]] + rest)
  {
    var r := [d[0]] + rest;
    if UniqueKeys(d) {
      assert UniqueKeys(d[1..]) by {
        forall i, j | 0 <= i < j < |d[1..]|
          ensures d[1..][i].0 != d[1..][j].0
        {
          assert d[1..][i] == d[i + 1] && d[1..][j] == d[j + 1];
        }
      }
      forall i, j | 0 <= i < j < |r|
        ensures r[i].0 != r[j].0
      {
        assert r[j] == rest[j - 1];
        if i > 0 {
          assert r[i] == rest[i - 1];
        } else {
          assert rest[j - 1] in rest;
          if rest[j - 1] != (key, value) {
            var k :| 0 <= k < |d[1..]| && d[1..][k] == rest[j - 1];
            assert d[k + 1] == rest[j - 1];
          }
        }
      }
    }
  }

  predicate UniqueKeys(d: seq<(string, nat)>) {
    forall i, j :: 0 <= i < j < |d| ==> d[i].0 != d[j].0
  }

  function SumValues(d: seq<(string, nat)>): nat {
    if d == [] then 0 else d[0].1 + SumValues(d[1..])
  }

  /** The state of the walk: the issues and the per-file issue counts so
      far, the files handed to the analyser, and the queue still to visit. */
  datatype Walk<I> = Walk(
    issues: seq<I>,
    fileAnalysis: seq<(string, nat)>,
    filesAnalyzed: nat,
    visited: seq<Entry>,
    unvisited: seq<Entry>)

  /** What holds of the walk at every turn of the loop: the counter counts
      the analysed files, each of them is analysable and lies in the tree, so
      does every queued entry, the issues are those the analysed files
      report, in order, and the counts are the dictionary they leave. */
  ghost predicate WalkInv<I>(w: Walk<I>, root: seq<Entry>, analyze: Analyzer<I>) {
    && w.filesAnalyzed == |w.visited| <= MaxFiles
    && (forall k :: 0 <= k < |w.visited| ==> Counted(w.visited[k], analyze) && InForest(w.visited[k], root))
    && (forall k :: 0 <= k < |w.unvisited| ==> InForest(w.unvisited[k], root))
    && w.issues == IssuesOf(w.visited, analyze)
    && w.fileAnalysis == CountsOf(w.visited, analyze)
  }

  /** What the counts say about the analysed files: one entry per path; each
      entry is the number of issues of an analysed file under that path; and
      every analysed file with issues has its path recorded. */
  ghost predicate CountsMean<I>(d: seq<(string, nat)>, visited: seq<Entry>, analyze: Analyzer<I>)
    requires forall k :: 0 <= k < |visited| ==> Counted(visited[k], analyze)
  {
    UniqueKeys(d) && CountsSound(d, visited, analyze) && CountsComplete(d, visited, analyze)
  }

  /** Each entry is the number of issues of an analysed file under that path. */
  ghost predicate CountsSound<I>(d: seq<(string, nat)>, visited: seq<Entry>, analyze: Analyzer<I>)
    requires forall k :: 0 <= k < |visited| ==> Counted(visited[k], analyze)
  {
    forall p :: p in d ==>
      p.1 >= 1 && exists k :: 0 <= k < |visited| && visited[k].path == p.0 && Counted(visited[k], analyze)
                               && p.1 == |AnalysisOf(visited[k], analyze).value|
  }

  /** Every analysed file with issues has its path recorded. */
  ghost predicate CountsComplete<I>(d: seq<(string, nat)>, visited: seq<Entry>, analyze: Analyzer<I>)
    requires forall k :: 0 <= k < |visited| ==> Counted(visited[k], analyze)
  {
    forall k :: 0 <= k < |visited| && Counted(visited[k], analyze) && AnalysisOf(visited[k], analyze).value != [] ==>
      exists p :: p in d && p.0 == visited[k].path
  }

  /** The recorded counts are those of the analysed files, and none is
      missing. */
  lemma CountsOfMean<I>(visited: seq<Entry>, analyze: Analyzer<I>)
    requires forall k :: 0 <= k < |visited| ==> Counted(visited[k], analyze)
    ensures CountsMean(CountsOf(visited, analyze), visited, analyze)
  {
    CountsOfUnique(visited, analyze);
    CountsOfSound(visited, analyze);
    CountsOfComplete(visited, analyze);
  }

  /** All but the last analysed file are analysed files too. */
  lemma InitCounted<I>(visited: seq<Entry>, analyze: Analyzer<I>)
    requires visited != [] && forall k :: 0 <= k < |visited| ==> Counted(visited[k], analyze)
    ensures forall k :: 0 <= k < |visited| - 1 ==> visited[..|visited| - 1][k] == visited[k]
    ensures Counted(visited[|visited| - 1], analyze)
  {
  }

  lemma {:induction false} CountsOfUnique<I>(visited: seq<Entry>, analyze: Analyzer<I>)
    requires forall k :: 0 <= k < |visited| ==> Counted(visited[k], analyze)
    ensures UniqueKeys(CountsOf(visited, analyze))
  {
    if visited != [] {
      InitCounted(visited, analyze);
      CountsOfUnique(visited[..|visited| - 1], analyze);
    }
  }

  lemma {:induction false} CountsOfSound<I>(visited: seq<Entry>, analyze: Analyzer<I>)
    requires forall k :: 0 <= k < |visited| ==> Counted(visited[k], analyze)
    ensures CountsSound(CountsOf(visited, analyze), visited, analyze)
  {
    if visited != [] {
      var last, init := visited[|visited| - 1], visited[..|visited| - 1];
      InitCounted(visited, analyze);
      CountsOfSound(init, analyze);
      var found := AnalysisOf(last, analyze).value;
      var d0, d := CountsOf(init, analyze), CountsOf(visited, analyze);
      assert d == Record(d0, last, analyze);
      forall p | p in d
        ensures p.1 >= 1 && exists k :: 0 <= k < |visited| && visited[k].path == p.0 && Counted(visited[k], analyze)
                                        && p.1 == |AnalysisOf(visited[k], analyze).value|
      {
        if p in d0 {
          var k :| 0 <= k < |init| && init[k].path == p.0 && Counted(init[k], analyze)
                   && p.1 == |AnalysisOf(init[k], analyze).value|;
          assert visited[k] == init[k];
        } else {
          assert p == (last.path, |found|);
        }
      }
    }
  }

  lemma {:induction false} CountsOfComplete<I>(visited: seq<Entry>, analyze: Analyzer<I>)
    requires forall k :: 0 <= k < |visited| ==> Counted(visited[k], analyze)
    ensures CountsComplete(CountsOf(visited, analyze), visited, analyze)
  {
    if visited != [] {
      var last, init := visited[|visited| - 1], visited[..|visited| - 1];
      InitCounted(visited, analyze);
      CountsOfComplete(init, analyze);
      var found := AnalysisOf(last, analyze).value;
      var d0, d := CountsOf(init, analyze), CountsOf(visited, analyze);
      assert d == Record(d0, last, analyze);
      forall k | 0 <= k < |visited| && Counted(visited[k], analyze) && AnalysisOf(visited[k], analyze).value != []
        ensures exists p :: p in d && p.0 == visited[k].path
      {
        if k == |visited| - 1 {
          assert (last.path, |found|) in d;
        } else {
          assert visited[k] == init[k];
          var p :| p in d0 && p.0 == init[k].path;
          if found != [] && p.0 == last.path {
            assert (last.path, |found|) in d;
          } else {
            assert p in d;
          }
        }
      }
    }
  }

  /** Every counted file of the tree has been analysed or still lies in or
      under the queue. */
  ghost predicate Reaches<I>(w: Walk<I>, root: seq<Entry>, analyze: Analyzer<I>) {
    forall e :: InForest(e, root) && Counted(e, analyze) ==> e in w.visited || InForest(e, w.unvisited)
  }

  /** One turn of the loop: take the head of the queue; a directory appends
      its listing (or nothing, when listing it fails) without counting; a
      file counts when it is small enough, has an analysable extension,
      decodes and the analyser does not raise, and a non-empty result is
      recorded under its path; any other file leaves all but the queue as
      it was. */
  function Step<I>(w: Walk<I>, analyze: Analyzer<I>): (r: Walk<I>)
    requires w.unvisited != []
    ensures WeightAll(r.unvisited) < WeightAll(w.unvisited)
    ensures w.unvisited[0].Dir? && w.unvisited[0].listable ==>
              r.unvisited == w.unvisited[1..] + w.unvisited[0].children
    ensures !(w.unvisited[0].Dir? && w.unvisited[0].listable) ==> r.unvisited == w.unvisited[1..]
    ensures Counted(w.unvisited[0], analyze) ==>
              r.visited == w.visited + [w.unvisited[0]] && r.filesAnalyzed == w.filesAnalyzed + 1
              && r.issues == w.issues + AnalysisOf(w.unvisited[0], analyze).value
    ensures Counted(w.unvisited[0], analyze) ==>
              var found := AnalysisOf(w.unvisited[0], analyze).value;
              r.fileAnalysis == if found != [] then DictSet(w.fileAnalysis, w.unvisited[0].path, |found|)
                                else w.fileAnalysis
    ensures !Counted(w.unvisited[0], analyze) ==> r == w.(unvisited := r.unvisited)
  {
    var e := w.unvisited[0];
    var queue := w.unvisited[1..];
    assert w.unvisited == [e] + queue;
    WeightAllAppend([e], queue);
    match e
    case Dir(_, _, children, listable) =>
      if listable then
        WeightAllAppend(queue, children);
        w.(unvisited := queue + children)
      else w.(unvisited := queue)
    case File(_, _, _, _) =>
      if Counted(e, analyze) then Analysed(w, analyze) else w.(unvisited := queue)
  }

  /** The walk after analysing the file at the head of the queue. */
  function Analysed<I>(w: Walk<I>, analyze: Analyzer<I>): Walk<I>
    requires w.unvisited != [] && Counted(w.unvisited[0], analyze)
  {
    var e := w.unvisited[0];
    var found := AnalysisOf(e, analyze).value;
    Walk(w.issues + found,
         if found != [] then DictSet(w.fileAnalysis, e.path, |found|) else w.fileAnalysis,
         w.filesAnalyzed + 1, w.visited + [e], w.unvisited[1..])
  }

  /** A turn of the loop keeps the invariant while fewer than the maximum
      number of files have been analysed. */
  lemma StepKeepsInv<I>(w: Walk<I>, root: seq<Entry>, analyze: Analyzer<I>)
    requires WalkInv(w, root, analyze) && w.unvisited != [] && w.filesAnalyzed < MaxFiles
    ensures WalkInv(Step(w, analyze), root, analyze)
  {
    var e := w.unvisited[0];
    assert InForest(e, root);
    if e.Dir? {
      DirStepKeepsInv(w, root, analyze);
    } else if Counted(e, analyze) {
      FileStepKeepsInv(w, root, analyze);
    } else {
      QueueTailInForest(w.unvisited, root);
    }
  }

  lemma QueueTailInForest(queue: seq<Entry>, root: seq<Entry>)
    requires queue != [] && forall k :: 0 <= k < |queue| ==> InForest(queue[k], root)
    ensures forall k :: 0 <= k < |queue[1..]| ==> InForest(queue[1..][k], root)
  {
    assert forall k :: 0 <= k < |queue[1..]| ==> queue[1..][k] == queue[k + 1];
  }

  /** Taking a directory off the queue queues its listing, all of it in the
      tree, and changes nothing else. */
  lemma DirStepKeepsInv<I>(w: Walk<I>, root: seq<Entry>, analyze: Analyzer<I>)
    requires WalkInv(w, root, analyze) && w.unvisited != [] && w.unvisited[0].Dir?
    ensures WalkInv(Step(w, analyze), root, analyze)
  {
    var e := w.unvisited[0];
    var r := Step(w, analyze);
    assert InForest(e, root);
    QueueTailInForest(w.unvisited, root);
    var queue := w.unvisited[1..];
    if e.listable {
      assert r.unvisited == queue + e.children;
      forall k | 0 <= k < |r.unvisited|
        ensures InForest(r.unvisited[k], root)
      {
        if k < |queue| {
          assert r.unvisited[k] == queue[k];
        } else {
          assert r.unvisited[k] == e.children[k - |queue|];
          ChildInForest(e, root, k - |queue|);
        }
      }
    }
  }

  /** Analysing a file appends it to the visited files, its issues to the
      issues and, when there are any, its count under its path. */
  lemma FileStepKeepsInv<I>(w: Walk<I>, root: seq<Entry>, analyze: Analyzer<I>)
    requires WalkInv(w, root, analyze) && w.unvisited != [] && w.filesAnalyzed < MaxFiles
    requires Counted(w.unvisited[0], analyze)
    ensures WalkInv(Step(w, analyze), root, analyze)
  {
    assert Step(w, analyze) == Analysed(w, analyze);
    AnalysedKeepsInv(w, root, analyze);
  }

  lemma AnalysedKeepsInv<I>(w: Walk<I>, root: seq<Entry>, analyze: Analyzer<I>)
    requires WalkInv(w, root, analyze) && w.unvisited != [] && w.filesAnalyzed < MaxFiles
    requires Counted(w.unvisited[0], analyze)
    ensures WalkInv(Analysed(w, analyze), root, analyze)
  {
    var e := w.unvisited[0];
    var found := AnalysisOf(e, analyze).value;
    assert InForest(e, root);
    QueueTailInForest(w.unvisited, root);
    VisitedGrows(w.visited, e, root, analyze);
    assert (w.visited + [e])[..|w.visited|] == w.visited;
  }

  lemma VisitedGrows<I>(visited: seq<Entry>, e: Entry, root: seq<Entry>, analyze: Analyzer<I>)
    requires forall k :: 0 <= k < |visited| ==> Counted(visited[k], analyze) && InForest(visited[k], root)
    requires Counted(e, analyze) && InForest(e, root)
    ensures forall k :: 0 <= k < |visited + [e]| ==>
              Counted((visited + [e])[k], analyze) && InForest((visited + [e])[k], root)
  {
    forall k | 0 <= k < |visited + [e]|
      ensures Counted((visited + [e])[k], analyze) && InForest((visited + [e])[k], root)
    {
      if k < |visited| { assert (visited + [e])[k] == visited[k]; }
    }
  }

  /** The head of a non-empty forest is the entry itself, lies under it, or
      the entry lies in the rest. */
  lemma InForestCons(e: Entry, es: seq<Entry>)
    requires es != [] && InForest(e, es)
    ensures || es[0] == e
            || (es[0].Dir? && es[0].listable && InForest(e, es[0].children))
            || InForest(e, es[1..])
  {
    var i :| 0 <= i < |es| && (es[i] == e || (es[i].Dir? && es[i].listable && InForest(e, es[i].children)));
    if i > 0 {
      assert es[1..][i - 1] == es[i];
    }
  }

  lemma InForestLeft(e: Entry, a: seq<Entry>, b: seq<Entry>)
    requires InForest(e, a)
    ensures InForest(e, a + b)
  {
    var i :| 0 <= i < |a| && (a[i] == e || (a[i].Dir? && a[i].listable && InForest(e, a[i].children)));
    assert (a + b)[i] == a[i];
  }

  lemma InForestRight(e: Entry, a: seq<Entry>, b: seq<Entry>)
    requires InForest(e, b)
    ensures InForest(e, a + b)
  {
    var i :| 0 <= i < |b| && (b[i] == e || (b[i].Dir? && b[i].listable && InForest(e, b[i].children)));
    assert (a + b)[|a| + i] == b[i];
  }

  /** A turn of the loop loses no counted file: the head is analysed, or
      its listing is queued, and the rest of the queue stays. */
  lemma StepKeepsReach<I>(w: Walk<I>, root: seq<Entry>, analyze: Analyzer<I>)
    requires Reaches(w, root, analyze) && w.unvisited != []
    ensures Reaches(Step(w, analyze), root, analyze)
  {
    var h, queue := w.unvisited[0], w.unvisited[1..];
    var r := Step(w, analyze);
    forall e | InForest(e, root) && Counted(e, analyze)
      ensures e in r.visited || InForest(e, r.unvisited)
    {
      if e in w.visited {
        assert e in r.visited;
      } else {
        InForestCons(e, w.unvisited);
        if h.Dir? && h.listable {
          if InForest(e, queue) {
            InForestLeft(e, queue, h.children);
          } else {
            InForestRight(e, queue, h.children);
          }
        } else if h == e {
          assert r.visited == w.visited + [e];
        }
      }
    }
  }

  /** The queue once its head is taken off: a listable directory's listing
      joins the end. */
  function NextQueue(queue: seq<Entry>): (r: seq<Entry>)
    requires queue != []
    ensures WeightAll(r) < WeightAll(queue)
  {
    var e, rest := queue[0], queue[1..];
    assert queue == [e] + rest;
    WeightAllAppend([e], rest);
    if e.Dir? && e.listable then
      WeightAllAppend(rest, e.children);
      rest + e.children
    else rest
  }

  /** Every entry the queue yields, in the order it yields them, when the
      walk is never cut short. */
  function QueueOrder(queue: seq<Entry>): seq<Entry>
    decreases WeightAll(queue)
  {
    if queue == [] then [] else [queue[0]] + QueueOrder(NextQueue(queue))
  }

  /** The entries of `s` the walk counts, in order. */
  function CountedOf<I>(s: seq<Entry>, analyze: Analyzer<I>): (r: seq<Entry>)
    ensures forall k :: 0 <= k < |r| ==> Counted(r[k], analyze)
  {
    if s == [] then [] else (if Counted(s[0], analyze) then [s[0]] else []) + CountedOf(s[1..], analyze)
  }

  /** The files `_analyze_repository_contents` analyses: the first
      `MaxFiles` counted files in the order the queue yields them. */
  function AnalysedFiles<I>(root: seq<Entry>, analyze: Analyzer<I>): (r: seq<Entry>)
    ensures |r| <= MaxFiles
    ensures forall k :: 0 <= k < |r| ==> Counted(r[k], analyze)
  {
    var all := CountedOf(QueueOrder(root), analyze);
    if |all| <= MaxFiles then all else all[..MaxFiles]
  }

  /** Taking the head off the queue moves it into the visited files when
      it counts, and drops it otherwise. */
  lemma OrderMoves<I>(visited: seq<Entry>, queue: seq<Entry>, visited': seq<Entry>, analyze: Analyzer<I>)
    requires queue != []
    requires visited' == if Counted(queue[0], analyze) then visited + [queue[0]] else visited
    ensures visited + CountedOf(QueueOrder(queue), analyze)
            == visited' + CountedOf(QueueOrder(NextQueue(queue)), analyze)
  {
    var h, q := queue[0], QueueOrder(NextQueue(queue));
    assert QueueOrder(queue) == [h] + q;
    assert ([h] + q)[1..] == q;
    var c := CountedOf(q, analyze);
    if Counted(h, analyze) {
      assert CountedOf([h] + q, analyze) == [h] + c;
      AppendAssoc(visited, [h], c);
    } else {
      assert CountedOf([h] + q, analyze) == c;
    }
  }

  /** A turn of the loop keeps the visited files followed by the counted
      files still to come equal to the counted files in queue order. */
  lemma StepKeepsOrder<I>(w: Walk<I>, analyze: Analyzer<I>)
    requires w.unvisited != []
    ensures var r := Step(w, analyze);
      w.visited + CountedOf(QueueOrder(w.unvisited), analyze) == r.visited + CountedOf(QueueOrder(r.unvisited), analyze)
  {
    var h, r := w.unvisited[0], Step(w, analyze);
    assert r.unvisited == NextQueue(w.unvisited);
    assert r.visited == if Counted(h, analyze) then w.visited + [h] else w.visited;
    OrderMoves(w.visited, w.unvisited, r.visited, analyze);
  }

  /** When the loop ends, the visited files are the first counted files in
      queue order. */
  lemma OrderDone<I>(root: seq<Entry>, visited: seq<Entry>, unvisited: seq<Entry>, analyze: Analyzer<I>)
    requires CountedOf(QueueOrder(root), analyze) == visited + CountedOf(QueueOrder(unvisited), analyze)
    requires |visited| <= MaxFiles && (unvisited == [] || |visited| == MaxFiles)
    ensures visited == AnalysedFiles(root, analyze)
  {
    var all := CountedOf(QueueOrder(root), analyze);
    if unvisited == [] {
      assert all == visited;
    } else {
      assert all[..MaxFiles] == visited;
    }
  }

  /** The loop of `_analyze_repository_contents`: a first-in first-out
      queue seeded with the root listing, left when it is empty or the
      maximum number of files has been analysed. A walk that stops below the
      maximum has analysed every counted file of the tree. */
  method WalkContents<I>(root: seq<Entry>, analyze: Analyzer<I>)
    returns (w: Walk<I>)
    ensures WalkInv(w, root, analyze)
    ensures w.filesAnalyzed == |w.visited| <= MaxFiles
    ensures forall k :: 0 <= k < |w.visited| ==> Counted(w.visited[k], analyze) && InForest(w.visited[k], root)
    ensures w.filesAnalyzed < MaxFiles ==> w.unvisited == []
    ensures w.filesAnalyzed < MaxFiles ==> forall e :: InForest(e, root) && Counted(e, analyze) ==> e in w.visited
    // the files analysed are the first counted ones in queue order
    ensures w.visited == AnalysedFiles(root, analyze)
    // each count is the number of issues of an analysed file, and none is missing
    ensures CountsMean(w.fileAnalysis, w.visited, analyze)
  {
    w := Walk([], [], 0, [], root);
    var all := CountedOf(QueueOrder(root), analyze);
    WalkStarts(root, analyze);
    while w.unvisited != [] && w.filesAnalyzed < MaxFiles
      invariant Walking(w, root, analyze, all)
      decreases WeightAll(w.unvisited)
    {
      StepKeepsWalking(w, root, analyze, all);
      w := Step(w, analyze);
    }
    WalkEnds(w, root, analyze);
  }

  /** The loop invariant of the walk: the walk invariant, every counted file
      still reachable, and the counted files in queue order split between
      those visited and those still to come. */
  ghost predicate Walking<I>(w: Walk<I>, root: seq<Entry>, analyze: Analyzer<I>, all: seq<Entry>) {
    && WalkInv(w, root, analyze)
    && Reaches(w, root, analyze)
    && all == w.visited + CountedOf(QueueOrder(w.unvisited), analyze)
  }

  lemma WalkStarts<I>(root: seq<Entry>, analyze: Analyzer<I>)
    ensures Walking(Walk([], [], 0, [], root), root, analyze, CountedOf(QueueOrder(root), analyze))
  {
    assert forall k :: 0 <= k < |root| ==> InForest(root[k], root);
  }

  lemma StepKeepsWalking<I>(w: Walk<I>, root: seq<Entry>, analyze: Analyzer<I>, all: seq<Entry>)
    requires Walking(w, root, analyze, all) && w.unvisited != [] && w.filesAnalyzed < MaxFiles
    ensures Walking(Step(w, analyze), root, analyze, all)
  {
    StepKeepsInv(w, root, analyze);
    StepKeepsReach(w, root, analyze);
    StepKeepsOrder(w, analyze);
  }

  /** What the walk has done once the loop is left. */
  lemma WalkEnds<I>(w: Walk<I>, root: seq<Entry>, analyze: Analyzer<I>)
    requires WalkInv(w, root, analyze) && Reaches(w, root, analyze)
    requires CountedOf(QueueOrder(root), analyze) == w.visited + CountedOf(QueueOrder(w.unvisited), analyze)
    requires w.unvisited == [] || w.filesAnalyzed >= MaxFiles
    ensures w.filesAnalyzed < MaxFiles ==> forall e :: InForest(e, root) && Counted(e, analyze) ==> e in w.visited
    ensures w.visited == AnalysedFiles(root, analyze)
    ensures CountsMean(w.fileAnalysis, w.visited, analyze)
  {
    assert forall e :: !InForest(e, []);
    OrderDone(root, w.visited, w.unvisited, analyze);
    CountsOfMean(w.visited, analyze);
  }

  /** What the source's `self.code_analyzer.analyze_file` raises: the class
      has no `__init__` and never sets that attribute. */
  const MissingCodeAnalyzer := "'GitHubAnalyzer' object has no attribute 'code_analyzer'"

  /** The analyser as the source reaches it: every call raises. */
  function Raising<I>(name: string, text: string, ext: string): Result<seq<I>> {
    Err(MissingCodeAnalyzer)
  }

  lemma HeadNotCounted<I>(visited: seq<Entry>)
    requires visited != []
    ensures !Counted(visited[0], Raising<I>)
  {
  }

  lemma HeadIn<T>(s: seq<T>)
    requires s != []
    ensures s[0] in s
  {
  }

  /** The walk as written: every analysis raises, is caught and skips the
      file, so nothing is counted or recorded and the whole tree is walked. */
  method ContentsAsWritten<I>(root: seq<Entry>) returns (w: Walk<I>)
    ensures w.filesAnalyzed == 0 && w.visited == [] && w.issues == [] && w.fileAnalysis == []
    ensures w.unvisited == []
  {
    w := WalkContents(root, Raising<I>);
    if w.visited != [] {
      HeadNotCounted<I>(w.visited);
      assert false;
    }
    if w.fileAnalysis != [] {
      HeadIn(w.fileAnalysis);
      assert false;
    }
  }

  /** The walk with an analyser that answers: below the maximum, every
      analysable file of the tree is analysed. */
  method ContentsWithAnalyzer<I>(root: seq<Entry>, analyze: Analyzer<I>) returns (w: Walk<I>)
    requires forall name, text, ext :: analyze(name, text, ext).Ok?
    ensures w.filesAnalyzed <= MaxFiles
    ensures w.filesAnalyzed < MaxFiles ==> forall e :: InForest(e, root) && Analyzable(e) ==> e in w.visited
    ensures forall k :: 0 <= k < |w.visited| ==> Counted(w.visited[k], analyze)
    ensures w.issues == IssuesOf(w.visited, analyze)
  {
    w := WalkContents(root, analyze);
  }

  // ---------------------------------------------------------------------------
  // _generate_repository_suggestions and _get_language_specific_suggestions

  datatype Suggestion =
    | AddReadme
    | AddLicense
    | AddGitignore
    | SetUpCi
    | AddDependencyFile
    | AddPackageConfig
    | AddPackageJson
    | AddEslint
    | AddBuildTool
    | AddGoMod
    | ManyOpenIssues(count: int)
    | IssueSummary(total: nat, files: nat)
    | PartialAnalysis

  /** The text shown for each suggestion. */
  function Message(s: Suggestion): string {
    match s
    case AddReadme => "Consider adding a README.md file to document your project"
    case AddLicense => "Consider adding a LICENSE file to specify project licensing"
    case AddGitignore => "Consider adding a .gitignore file to exclude unnecessary files"
    case SetUpCi => "Consider setting up CI/CD pipeline for automated testing"
    case AddDependencyFile => "Consider adding requirements.txt or pyproject.toml for dependency management"
    case AddPackageConfig => "Consider adding setup.py or pyproject.toml for package configuration"
    case AddPackageJson => "Consider adding package.json for dependency management"
    case AddEslint => "Consider adding ESLint configuration for code quality"
    case AddBuildTool => "Consider using Maven (pom.xml) or Gradle (build.gradle) for build management"
    case AddGoMod => "Consider adding go.mod for module management"
    case ManyOpenIssues(n) => "High number of open issues (" + IntToString(n) + "). Consider addressing some issues"
    case IssueSummary(t, f) => "Found " + Decimal(t) + " code issues across " + Decimal(f) + " files"
    case PartialAnalysis => "Could not fully analyze repository contents due to access limitations"
  }

  /** The lower-cased names of the files (not directories) of a listing. */
  function FileNames(listing: seq<Entry>): (names: seq<string>)
    ensures forall n :: n in names ==> exists e :: e in listing && e.File? && n == Lower(e.name)
    ensures forall e :: e in listing && e.File? ==> Lower(e.name) in names
    ensures forall k, i :: 0 <= k < |names| && 0 <= i < |names[k]| ==> !IsAsciiUpper(names[k][i])
  {
    if listing == [] then []
    else
      var rest := FileNames(listing[1..]);
      assert forall e :: e in listing[1..] ==> e in listing;
      if listing[0].File? then
        LowerHasNoUpper(listing[0].name);
        [Lower(listing[0].name)] + rest
      else rest
  }

  /** `_get_language_specific_suggestions`: each suggestion belongs to one
      language and is made exactly when the files it asks for are all absent
      from the root listing. */
  function LanguageSuggestions(language: string, names: seq<string>): (r: seq<Suggestion>)
    ensures AddDependencyFile in r <==>
              language == "python" && "requirements.txt" !in names && "pyproject.toml" !in names
    ensures AddPackageConfig in r <==>
              language == "python" && "setup.py" !in names && "pyproject.toml" !in names
    ensures AddPackageJson in r <==>
              (language == "javascript" || language == "typescript") && "package.json" !in names
    ensures AddEslint in r <==>
              (language == "javascript" || language == "typescript") && ".eslintrc" !in names && ".eslintrc.json" !in names
    ensures AddBuildTool in r <==> language == "java" && "pom.xml" !in names && "build.gradle" !in names
    ensures AddGoMod in r <==> language == "go" && "go.mod" !in names
    ensures forall s :: s in r ==> s in {AddDependencyFile, AddPackageConfig, AddPackageJson, AddEslint, AddBuildTool, AddGoMod}
    ensures language == "python" ==> |r| <= 2 && ("pyproject.toml" in names ==> r == [])
    ensures (language == "javascript" || language == "typescript") ==> |r| <= 2
    ensures (language == "java" || language == "go") ==> |r| <= 1
    ensures language !in {"python", "javascript", "typescript", "java", "go"} ==> r == []
    ensures forall s :: s in r ==> s !in {AddReadme, AddLicense, AddGitignore, SetUpCi}
    ensures forall s :: s in r ==> !s.ManyOpenIssues? && !s.IssueSummary? && !s.PartialAnalysis?
  {
    if language == "python" then
      (if "requirements.txt" !in names && "pyproject.toml" !in names then [AddDependencyFile] else [])
      + (if "setup.py" !in names && "pyproject.toml" !in names then [AddPackageConfig] else [])
    else if language == "javascript" || language == "typescript" then
      (if "package.json" !in names then [AddPackageJson] else [])
      + (if ".eslintrc" !in names && ".eslintrc.json" !in names then [AddEslint] else [])
    else if language == "java" then
      if "pom.xml" !in names && "build.gradle" !in names then [AddBuildTool] else []
    else if language == "go" then
      if "go.mod" !in names then [AddGoMod] else []
    else []
  }

  predicate AnyContains(names: seq<string>, word: string) {
    exists k :: 0 <= k < |names| && Contains(names[k], word)
  }

  /** The names `_generate_repository_suggestions` compares against its CI
      list, as written. */
  const CiFiles: seq<string> := [".github", ".gitlab-ci.yml", "Jenkinsfile", ".travis.yml"]

  /** The suggestions drawn from the root's file names: a README, a licence
      and a `.gitignore` are suggested when missing. */
  function FileSuggestions(names: seq<string>): (r: seq<Suggestion>)
    ensures AddReadme in r <==> !AnyContains(names, "readme")
    ensures AddLicense in r <==> !AnyContains(names, "license")
    ensures AddGitignore in r <==> ".gitignore" !in names
    ensures forall s :: s in r ==> s == AddReadme || s == AddLicense || s == AddGitignore
  {
    (if !AnyContains(names, "readme") then [AddReadme] else [])
    + (if !AnyContains(names, "license") then [AddLicense] else [])
    + (if ".gitignore" !in names then [AddGitignore] else [])
  }

  /** The CI suggestion, made when no name equals one of the CI names. */
  function CiSuggestion(names: seq<string>): (r: seq<Suggestion>)
    ensures forall s :: s in r ==> s == SetUpCi
  {
    if !(exists k :: 0 <= k < |CiFiles| && CiFiles[k] in names) then [SetUpCi] else []
  }

  /** The suggestions about issues: many open issues, and the summary of
      the analyser's findings when there are any. */
  function IssueSuggestions(openIssues: int, fileAnalysis: seq<(string, nat)>): (r: seq<Suggestion>)
    ensures ManyOpenIssues(openIssues) in r <==> openIssues > 10
    ensures (exists t, f :: IssueSummary(t, f) in r) <==> SumValues(fileAnalysis) > 0
    ensures SumValues(fileAnalysis) > 0 ==> IssueSummary(SumValues(fileAnalysis), |fileAnalysis|) in r
    ensures forall s :: s in r ==> s.ManyOpenIssues? || s.IssueSummary?
  {
    var total := SumValues(fileAnalysis);
    var r :=
      (if openIssues > 10 then [ManyOpenIssues(openIssues)] else [])
      + (if fileAnalysis != [] && total > 0 then [IssueSummary(total, |fileAnalysis|)] else []);
    assert fileAnalysis == [] ==> total == 0;
    assert forall t, f :: IssueSummary(t, f) in r ==> total > 0;
    r
  }

  /** `_generate_repository_suggestions`: `listing` is the root listing, or
      `None` when fetching it failed (no suggestions then); `language` is
      the repository's language, `None` when unset. */
  function RepositorySuggestions(listing: Option<seq<Entry>>, language: Option<string>, openIssues: int,
                                 fileAnalysis: seq<(string, nat)>): (r: seq<Suggestion>)
    ensures listing.None? ==> r == []
    ensures PartialAnalysis !in r
    ensures listing.Some? ==> var names := FileNames(listing.value);
      r == FileSuggestions(names) + CiSuggestion(names)
           + (if language.Some? && language.value != [] then LanguageSuggestions(Lower(language.value), names) else [])
           + IssueSuggestions(openIssues, fileAnalysis)
  {
    match listing
    case None => []
    case Some(entries) =>
      var names := FileNames(entries);
      var lang :=
        if language.Some? && language.value != [] then LanguageSuggestions(Lower(language.value), names) else [];
      var files, ci, issues := FileSuggestions(names), CiSuggestion(names), IssueSuggestions(openIssues, fileAnalysis);
      assert PartialAnalysis !in files && PartialAnalysis !in ci;
      assert PartialAnalysis !in lang && PartialAnalysis !in issues;
      files + ci + lang + issues
  }

  /** The suggestions for a listing, as the concatenation of their parts. */
  lemma SuggestionParts(listing: seq<Entry>, language: Option<string>, openIssues: int,
                        fileAnalysis: seq<(string, nat)>, s: Suggestion)
    ensures var names := FileNames(listing);
      var r := RepositorySuggestions(Some(listing), language, openIssues, fileAnalysis);
      s in r <==> || s in FileSuggestions(names) || s in CiSuggestion(names)
                  || s in (if language.Some? && language.value != [] then LanguageSuggestions(Lower(language.value), names) else [])
                  || s in IssueSuggestions(openIssues, fileAnalysis)
  {
  }

  /** With a root listing, a README, a licence or a `.gitignore` is
      suggested exactly when the listing lacks it. */
  lemma MissingFilesSuggested(listing: seq<Entry>, language: Option<string>, openIssues: int,
                              fileAnalysis: seq<(string, nat)>)
    ensures var r := RepositorySuggestions(Some(listing), language, openIssues, fileAnalysis);
      var names := FileNames(listing);
      && (AddReadme in r <==> !AnyContains(names, "readme"))
      && (AddLicense in r <==> !AnyContains(names, "license"))
      && (AddGitignore in r <==> ".gitignore" !in names)
  {
    OnlyFromFiles(listing, language, openIssues, fileAnalysis, AddReadme);
    OnlyFromFiles(listing, language, openIssues, fileAnalysis, AddLicense);
    OnlyFromFiles(listing, language, openIssues, fileAnalysis, AddGitignore);
  }

  /** The suggestions about missing files come from the file check alone. */
  lemma OnlyFromFiles(listing: seq<Entry>, language: Option<string>, openIssues: int,
                      fileAnalysis: seq<(string, nat)>, s: Suggestion)
    requires s == AddReadme || s == AddLicense || s == AddGitignore
    ensures s in RepositorySuggestions(Some(listing), language, openIssues, fileAnalysis)
            <==> s in FileSuggestions(FileNames(listing))
  {
    SuggestionParts(listing, language, openIssues, fileAnalysis, s);
  }

  /** With a root listing, many open issues are reported exactly when there
      are more than ten. */
  lemma ManyIssuesSuggested(listing: seq<Entry>, language: Option<string>, openIssues: int,
                            fileAnalysis: seq<(string, nat)>)
    ensures ManyOpenIssues(openIssues) in RepositorySuggestions(Some(listing), language, openIssues, fileAnalysis)
            <==> openIssues > 10
  {
    SuggestionParts(listing, language, openIssues, fileAnalysis, ManyOpenIssues(openIssues));
  }

  /** With a root listing, the summary of findings, with the total and the
      number of files, appears exactly when the analyser found something. */
  lemma SummarySuggested(listing: seq<Entry>, language: Option<string>, openIssues: int,
                         fileAnalysis: seq<(string, nat)>)
    ensures var r := RepositorySuggestions(Some(listing), language, openIssues, fileAnalysis);
      && (SumValues(fileAnalysis) > 0 ==> IssueSummary(SumValues(fileAnalysis), |fileAnalysis|) in r)
      && (SumValues(fileAnalysis) == 0 ==> forall t, f :: IssueSummary(t, f) !in r)
  {
    var r := RepositorySuggestions(Some(listing), language, openIssues, fileAnalysis);
    var issues := IssueSuggestions(openIssues, fileAnalysis);
    SummaryFromIssues(listing, language, openIssues, fileAnalysis, SumValues(fileAnalysis), |fileAnalysis|);
    forall t, f | IssueSummary(t, f) in r
      ensures SumValues(fileAnalysis) > 0
    {
      SummaryFromIssues(listing, language, openIssues, fileAnalysis, t, f);
      assert IssueSummary(t, f) in issues;
    }
  }

  /** Only the issue rules produce a summary. */
  lemma SummaryFromIssues(listing: seq<Entry>, language: Option<string>, openIssues: int,
                          fileAnalysis: seq<(string, nat)>, t: nat, f: nat)
    ensures IssueSummary(t, f) in RepositorySuggestions(Some(listing), language, openIssues, fileAnalysis)
            <==> IssueSummary(t, f) in IssueSuggestions(openIssues, fileAnalysis)
  {
    SuggestionParts(listing, language, openIssues, fileAnalysis, IssueSummary(t, f));
  }

  /** Names without upper-case letters, as `FileNames` produces them. */
  predicate LowerNames(names: seq<string>) {
    forall k, i :: 0 <= k < |names| && 0 <= i < |names[k]| ==> !IsAsciiUpper(names[k][i])
  }

  lemma JenkinsfileNeverListed(names: seq<string>, jenkins: string)
    requires LowerNames(names) && jenkins == "Jenkinsfile"
    ensures jenkins !in names
  {
    assert IsAsciiUpper(jenkins[0]);
    assert forall k :: 0 <= k < |names| && |names[k]| > 0 ==> !IsAsciiUpper(names[k][0]);
  }

  /** No lower-cased file name equals `Jenkinsfile`, so CI is recognised
      only by a file named `.github`, `.gitlab-ci.yml` or `.travis.yml`. */
  lemma CiNamesAsWritten(names: seq<string>)
    requires LowerNames(names)
    ensures SetUpCi in CiSuggestion(names) <==>
              (".github" !in names && ".gitlab-ci.yml" !in names && ".travis.yml" !in names)
  {
    JenkinsfileNeverListed(names, CiFiles[2]);
    if ".github" in names {
      assert CiFiles[0] in names;
    } else if ".gitlab-ci.yml" in names {
      assert CiFiles[1] in names;
    } else if ".travis.yml" in names {
      assert CiFiles[3] in names;
    }
  }

  /** With a root listing, CI is suggested exactly when no file, as opposed
      to a directory, is named `.github`, `.gitlab-ci.yml` or `.travis.yml`. */
  lemma CiSuggestionRule(listing: seq<Entry>, language: Option<string>, openIssues: int,
                         fileAnalysis: seq<(string, nat)>)
    ensures var names := FileNames(listing);
      SetUpCi in RepositorySuggestions(Some(listing), language, openIssues, fileAnalysis) <==>
        (".github" !in names && ".gitlab-ci.yml" !in names && ".travis.yml" !in names)
  {
    SuggestionParts(listing, language, openIssues, fileAnalysis, SetUpCi);
    CiNamesAsWritten(FileNames(listing));
  }

  /** A repository whose CI is a `Jenkinsfile` and a `.github` workflow
      directory is still told to set up CI. */
  lemma JenkinsAndActionsIgnored(jenkins: Entry, actions: Entry, language: Option<string>, openIssues: int)
    requires jenkins.File? && jenkins.name == "Jenkinsfile"
    requires actions.Dir? && actions.name == ".github"
    ensures SetUpCi in RepositorySuggestions(Some([jenkins, actions]), language, openIssues, [])
  {
    JenkinsLower(jenkins.name);
    OtherFileIgnored(jenkins, actions, language, openIssues);
  }

  /** A root of one file whose name is not a CI name, and a directory, is
      told to set up CI. */
  lemma OtherFileIgnored(file: Entry, dir: Entry, language: Option<string>, openIssues: int)
    requires file.File? && dir.Dir?
    requires Lower(file.name) != ".github" && Lower(file.name) != ".gitlab-ci.yml" && Lower(file.name) != ".travis.yml"
    ensures SetUpCi in RepositorySuggestions(Some([file, dir]), language, openIssues, [])
  {
    OnlyFileNamed(file, dir);
    CiSuggestionRule([file, dir], language, openIssues, []);
  }

  lemma OnlyFileNamed(file: Entry, dir: Entry)
    requires file.File? && dir.Dir?
    ensures FileNames([file, dir]) == [Lower(file.name)]
  {
    assert [file, dir][1..] == [dir];
    assert [dir][1..] == [];
    assert FileNames([dir]) == FileNames([]) == [];
  }

  lemma JenkinsLower(name: string)
    requires name == "Jenkinsfile"
    ensures |Lower(name)| == |name| && Lower(name)[0] == 'j'
    ensures Lower(name) != ".github" && Lower(name) != ".gitlab-ci.yml" && Lower(name) != ".travis.yml"
  {
  }

  /** The CI names, lower-cased, as the check evidently meant them. */
  const CiNames: set<string> := {".github", ".gitlab-ci.yml", "jenkinsfile", ".travis.yml"}

  /** The corrected CI check: any entry of the root, file or directory, whose
      lower-cased name is a CI name. */
  predicate HasCiConfig(listing: seq<Entry>) {
    exists k :: 0 <= k < |listing| && Lower(listing[k].name) in CiNames
  }

  /** The corrected check recognises a `Jenkinsfile`, whatever its case, and
      a `.github` directory. */
  lemma CiConfigRecognised(listing: seq<Entry>, k: nat)
    requires k < |listing|
    requires Lower(listing[k].name) == "jenkinsfile" || (listing[k].Dir? && listing[k].name == ".github")
    ensures HasCiConfig(listing)
  {
    if listing[k].name == ".github" {
      LowerUnchanged(".github");
    }
  }

  /** The corrected CI suggestion: made exactly when no entry of the root,
      file or directory, carries a CI name in any case. */
  function CiSuggestionFixed(listing: seq<Entry>): (r: seq<Suggestion>)
    ensures SetUpCi in r <==> !HasCiConfig(listing)
    ensures forall s :: s in r ==> s == SetUpCi
  {
    if HasCiConfig(listing) then [] else [SetUpCi]
  }

  /** The corrected suggestion is never made where the original one is not:
      it only drops the suggestion for the CI set-ups the original misses. */
  lemma CiFixedRefines(listing: seq<Entry>)
    ensures SetUpCi in CiSuggestionFixed(listing) ==> SetUpCi in CiSuggestion(FileNames(listing))
  {
    var names := FileNames(listing);
    CiNamesAsWritten(names);
    if ".github" in names { ListedCiFile(listing, ".github"); }
    if ".gitlab-ci.yml" in names { ListedCiFile(listing, ".gitlab-ci.yml"); }
    if ".travis.yml" in names { ListedCiFile(listing, ".travis.yml"); }
  }

  /** A listed file whose lower-cased name is a CI name is a CI set-up. */
  lemma ListedCiFile(listing: seq<Entry>, n: string)
    requires n in FileNames(listing) && n in CiNames
    ensures HasCiConfig(listing)
  {
    var e :| e in listing && e.File? && n == Lower(e.name);
    var k :| 0 <= k < |listing| && listing[k] == e;
  }

  // ---------------------------------------------------------------------------
  // _analyze_repository_contents

  function KeysOf(d: seq<(string, nat)>): set<string> {
    if d == [] then {} else {d[0].0} + KeysOf(d[1..])
  }

  function PathsOf(v: seq<Entry>): set<string> {
    if v == [] then {} else {v[0].path} + PathsOf(v[1..])
  }

  /** The keys are those of the entries. */
  lemma {:induction false} KeysOfHas(d: seq<(string, nat)>)
    ensures forall x :: x in KeysOf(d) <==> exists i :: 0 <= i < |d| && d[i].0 == x
  {
    if d != [] {
      var t := d[1..];
      KeysOfHas(t);
      forall x ensures x in KeysOf(d) <==> exists i :: 0 <= i < |d| && d[i].0 == x {
        if x in KeysOf(t) {
          var i :| 0 <= i < |t| && t[i].0 == x;
          assert d[i + 1].0 == x;
        }
        if exists i :: 0 <= i < |d| && d[i].0 == x {
          var i :| 0 <= i < |d| && d[i].0 == x;
          if i > 0 { assert t[i - 1].0 == x; }
        }
      }
    }
  }

  /** Distinct keys: as many keys as entries. */
  lemma {:induction false} KeysOfCard(d: seq<(string, nat)>)
    requires UniqueKeys(d)
    ensures |KeysOf(d)| == |d|
  {
    if d != [] {
      var t := d[1..];
      forall i, j | 0 <= i < j < |t| ensures t[i].0 != t[j].0 {
        assert t[i] == d[i + 1] && t[j] == d[j + 1];
      }
      KeysOfCard(t);
      KeysOfHas(t);
      forall i | 0 <= i < |t| ensures t[i].0 != d[0].0 {
        assert t[i] == d[i + 1];
      }
      assert d[0].0 !in KeysOf(t);
    }
  }

  /** No more paths than entries. */
  lemma {:induction false} PathsOfCard(v: seq<Entry>)
    ensures |PathsOf(v)| <= |v|
    ensures forall k :: 0 <= k < |v| ==> v[k].path in PathsOf(v)
  {
    if v != [] {
      PathsOfCard(v[1..]);
      forall k | 0 < k < |v| ensures v[k].path in PathsOf(v) {
        assert v[1..][k - 1] == v[k];
      }
    }
  }

  /** Counts stored under distinct paths of analysed files are no more than
      the analysed files. */
  lemma CountsWithinVisited(d: seq<(string, nat)>, visited: seq<Entry>)
    requires UniqueKeys(d)
    requires forall p :: p in d ==> exists k :: 0 <= k < |visited| && visited[k].path == p.0
    ensures |d| <= |visited|
  {
    KeysOfCard(d);
    KeysOfHas(d);
    PathsOfCard(visited);
    forall x | x in KeysOf(d) ensures x in PathsOf(visited) {
      var i :| 0 <= i < |d| && d[i].0 == x;
      assert d[i] in d;
    }
    assert KeysOf(d) <= PathsOf(visited);
    SubsetCard(KeysOf(d), PathsOf(visited));
  }

  lemma SubsetCard<T>(a: set<T>, b: set<T>)
    requires a <= b
    ensures |a| <= |b|
  {
    assert b == a + (b - a);
  }

  /** The result dictionary of `_analyze_repository_contents`. */
  datatype ContentsReport<I> = ContentsReport(issues: seq<I>, suggestions: seq<Suggestion>,
                                              fileAnalysis: seq<(string, nat)>)

  /** `_analyze_repository_contents`: when listing the root raises, the
      outer `except` leaves no issue and only the partial-analysis note;
      otherwise the walk's issues and counts, and the suggestions drawn from
      a second listing of the root, which may fail on its own. */
  method AnalyzeContents<I>(root: Option<seq<Entry>>, analyze: Analyzer<I>, listing: Option<seq<Entry>>,
                            language: Option<string>, openIssues: int) returns (r: ContentsReport<I>)
    ensures root.None? ==> r == ContentsReport([], [PartialAnalysis], [])
    ensures root.Some? ==> PartialAnalysis !in r.suggestions
    ensures root.Some? ==> r.suggestions == RepositorySuggestions(listing, language, openIssues, r.fileAnalysis)
    ensures root.Some? ==> UniqueKeys(r.fileAnalysis) && |r.fileAnalysis| <= MaxFiles
    ensures root.Some? ==> forall p :: p in r.fileAnalysis ==> p.1 >= 1
    // the issues and counts are those of the first counted files in queue order
    ensures root.Some? ==>
      var files := AnalysedFiles(root.value, analyze);
      && r.issues == IssuesOf(files, analyze)
      && r.fileAnalysis == CountsOf(files, analyze)
      && CountsMean(r.fileAnalysis, files, analyze)
    // below the maximum, every counted file of the tree is among them
    ensures root.Some? && |AnalysedFiles(root.value, analyze)| < MaxFiles ==>
      forall e :: InForest(e, root.value) && Counted(e, analyze) ==> e in AnalysedFiles(root.value, analyze)
  {
    match root
    case None =>
      r := ContentsReport([], [PartialAnalysis], []);
    case Some(entries) =>
      var w := WalkContents(entries, analyze);
      CountsWithinVisited(w.fileAnalysis, w.visited);
      r := ContentsReport(w.issues, RepositorySuggestions(listing, language, openIssues, w.fileAnalysis),
                          w.fileAnalysis);
  }
}
