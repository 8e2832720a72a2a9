/**
  The pure part of the GitHub scraper: taking a file URL apart
  (`extract_repo_details`), naming the Markdown copy of a fetched file
  (`process_github_url` and `save_to_md_file`), and the run over the URL
  file (`process_urls_from_file`).  The GitHub contents API call is a
  parameter `fetch` (what `get_file_content` ends with for the four URL
  parts), and whether the file can be opened and written is a parameter
  `canWrite` on the target path.
 */
module GitHubScraper {
  import opened Results
  import opened PyStrings
  import opened UrlFile

  const GitHubPrefix := "https://github.com/"

  /** The four values `extract_repo_details` returns. */
  datatype RepoFile = RepoFile(owner: string, repo: string, branch: string, filePath: string)

  /**
    The exceptions that end a run: `IndexError` on a URL with too few
    segments, any exception of the API request, the JSON access or the
    decoding (`FetchError`), and any exception of `open` or `write` when
    the Markdown file is saved (`WriteError`).
   */
  datatype ScrapeError = IndexError | FetchError | WriteError

  /**
    How `get_file_content` ends: it raises, it returns `None` (status other
    than 200), or it returns the decoded text.
   */
  datatype Fetched = Raised | NoFile | Content(text: string)

  /** One `.md` file written: where, and what. */
  datatype Saved = Saved(path: string, content: string)

  /** What a run over the URL file leaves behind: the files written, and the exception that ended it, if any. */
  datatype Run = Run(saved: seq<Saved>, failure: Option<ScrapeError>)

  /** `github_url.replace("https://github.com/", "")`: the text that is cut at `'/'`. */
  function Stripped(url: string): string {
    Replace(url, GitHubPrefix, "")
  }

  /**
    `extract_repo_details` after the prefix is gone: cut the text at `'/'`,
    take parts 0, 1 and 3 as owner, repository and branch, and join the
    parts from 4 on with `'/'` as the file path.
   */
  function Details(s: string): (r: Result<RepoFile, ScrapeError>)
    ensures r.Err? <==> Count(s, '/') < 3
    ensures r.Err? ==> r.error == IndexError
    ensures r.Ok? ==> '/' !in r.value.owner && '/' !in r.value.repo && '/' !in r.value.branch
    ensures r.Ok? && Count(s, '/') == 3 ==> r.value.filePath == ""
  {
    var parts := Split(s, "/");
    SplitCharCount(s, '/');
    SplitCharPieces(s, '/');
    if |parts| < 4 then Err(IndexError)
    else Ok(RepoFile(parts[0], parts[1], parts[3], Join("/", parts[4..])))
  }

  /** `extract_repo_details(github_url)`. */
  function ExtractRepoDetails(url: string): (r: Result<RepoFile, ScrapeError>)
    ensures r.Err? <==> Count(Stripped(url), '/') < 3
    ensures r.Err? ==> r.error == IndexError
    ensures r.Ok? ==> '/' !in r.value.owner && '/' !in r.value.repo && '/' !in r.value.branch
    ensures r.Ok? && Count(Stripped(url), '/') == 3 ==> r.value.filePath == ""
  {
    Details(Stripped(url))
  }

  /** `https://github.com/{o}/{r}/{x}/{b}/{p}`: a file URL as the scraper expects it, `x` being `blob`. */
  function FileUrl(o: string, r: string, x: string, b: string, p: string): string {
    GitHubPrefix + o + "/" + r + "/" + x + "/" + b + "/" + p
  }

  /**
    A file URL comes apart into its owner, repository, branch and path.  The
    third segment is never looked at: any segment where `blob` is expected
    gives the same result.  Slashes inside the path survive the split and
    re-join.
   */
  lemma ExtractRoundTrip(o: string, r: string, x: string, b: string, p: string)
    requires '/' !in o && '/' !in r && '/' !in x && '/' !in b
    requires !Occurs(o + "/" + r + "/" + x + "/" + b + "/" + p, GitHubPrefix)
    ensures ExtractRepoDetails(FileUrl(o, r, x, b, p)) == Ok(RepoFile(o, r, b, p))
  {
    var tail := o + "/" + r + "/" + x + "/" + b + "/" + p;
    assert FileUrl(o, r, x, b, p) == GitHubPrefix + tail;
    PrefixOptional(tail);
    ReplaceAbsent(tail, GitHubPrefix, "");
    DetailsOfSegments(o, r, x, b, p);
  }

  lemma DetailsOfSegments(o: string, r: string, x: string, b: string, p: string)
    requires '/' !in o && '/' !in r && '/' !in x && '/' !in b
    ensures Details(o + "/" + r + "/" + x + "/" + b + "/" + p) == Ok(RepoFile(o, r, b, p))
  {
    var tail := o + "/" + r + "/" + x + "/" + b + "/" + p;
    assert tail == o + ['/'] + (r + ['/'] + (x + ['/'] + (b + ['/'] + p)));
    SplitSegments(o, r, x, b, p, '/');
    var parts := Split(tail, "/");
    assert parts[4..] == Split(p, "/");
  }

  /** Cutting `o/r/x/b/p` at `'/'`, with no `'/'` in the first four, gives them and the pieces of `p`. */
  lemma SplitSegments(o: string, r: string, x: string, b: string, p: string, c: char)
    requires c !in o && c !in r && c !in x && c !in b
    ensures Split(o + [c] + (r + [c] + (x + [c] + (b + [c] + p))), [c]) == [o, r, x, b] + Split(p, [c])
  {
    SplitCharCons(b, c, p);
    SplitCharCons(x, c, b + [c] + p);
    SplitCharCons(r, c, x + [c] + (b + [c] + p));
    SplitCharCons(o, c, r + [c] + (x + [c] + (b + [c] + p)));
  }

  /** A URL with the prefix in front and the same URL without it give the same result. */
  lemma PrefixOptional(url: string)
    ensures Stripped(GitHubPrefix + url) == Stripped(url)
    ensures ExtractRepoDetails(GitHubPrefix + url) == ExtractRepoDetails(url)
  {
    var s := GitHubPrefix + url;
    assert s[..|GitHubPrefix|] == GitHubPrefix;
    assert s[|GitHubPrefix|..] == url;
  }

  /**
    The prefix is deleted wherever it occurs, not only in front: a copy
    after a stretch `u` in which no match starts is cut out, and the text
    after it is handled in the same way.
   */
  lemma PrefixDeletedInside(u: string, v: string)
    requires forall i :: 0 <= i < |u| ==> !MatchAt(u + GitHubPrefix + v, GitHubPrefix, i)
    ensures Stripped(u + GitHubPrefix + v) == u + Stripped(v)
  {
    assert u + GitHubPrefix + v == u + (GitHubPrefix + v);
    ReplaceSkipsPrefix(u, GitHubPrefix + v, GitHubPrefix, "");
    PrefixOptional(v);
  }

  /**
    A copy of the prefix inside the path is deleted too: a file URL whose
    path is `https://github.com/` comes back with an empty path, for any
    owner, repository, `blob` segment and branch free of `'/'` and `'h'`.
   */
  lemma PrefixInPathDeleted(o: string, r: string, x: string, b: string)
    requires '/' !in o && '/' !in r && '/' !in x && '/' !in b
    requires 'h' !in o && 'h' !in r && 'h' !in x && 'h' !in b
    ensures ExtractRepoDetails(FileUrl(o, r, x, b, GitHubPrefix)) == Ok(RepoFile(o, r, b, ""))
  {
    var u := o + "/" + r + "/" + x + "/" + b + "/";
    assert FileUrl(o, r, x, b, GitHubPrefix) == GitHubPrefix + (u + GitHubPrefix);
    PrefixOptional(u + GitHubPrefix);
    assert 'h' !in u;
    NoMatchBeforePrefix(u, "");
    assert u + GitHubPrefix + "" == u + GitHubPrefix;
    PrefixDeletedInside(u, "");
    assert Stripped("") == "";
    assert u + "" == o + "/" + r + "/" + x + "/" + b + "/" + "";
    DetailsOfSegments(o, r, x, b, "");
  }

  /** The witness: `https://github.com/o/r/blob/b/https://github.com/` has an empty path. */
  lemma PrefixInPathWitness()
    ensures ExtractRepoDetails(FileUrl("o", "r", "blob", "b", GitHubPrefix)) == Ok(RepoFile("o", "r", "b", ""))
  {
    PrefixInPathDeleted("o", "r", "blob", "b");
  }

  /** No copy of the prefix starts inside a stretch that holds no `'h'`. */
  lemma NoMatchBeforePrefix(u: string, v: string)
    requires 'h' !in u
    ensures forall i :: 0 <= i < |u| ==> !MatchAt(u + GitHubPrefix + v, GitHubPrefix, i)
  {
    var s := u + GitHubPrefix + v;
    forall i | 0 <= i < |u|
      ensures !MatchAt(s, GitHubPrefix, i)
    {
      assert s[i] == u[i];
      MismatchAtFirst(s, GitHubPrefix, i);
    }
  }

  /** A match cannot start where the first character differs. */
  lemma MismatchAtFirst(s: string, pat: string, i: nat)
    requires i < |s| && pat != [] && s[i] != pat[0]
    ensures !MatchAt(s, pat, i)
  {
    if i + |pat| <= |s| {
      assert s[i..i + |pat|][0] == s[i];
    }
  }

  /** The last `'/'`-separated segment. */
  function LastSegment(path: string): (seg: string)
    ensures '/' !in seg
  {
    var parts := Split(path, "/");
    SplitCharPieces(path, '/');
    LastPiece(parts)
  }

  /** `parts[-1]`. */
  function LastPiece(parts: seq<string>): string
    requires |parts| >= 1
  {
    parts[|parts| - 1]
  }

  /** `file_path.split("/")[-1].replace(".js", "")`: the name the file is saved under. */
  function SavedName(path: string): (name: string)
    ensures '/' !in name
  {
    ReplaceKeepsOut(LastSegment(path), ".js", "", '/');
    Replace(LastSegment(path), ".js", "")
  }

  /** `f"data/{file_name.replace('/', '_')}.md"`: the file `save_to_md_file` writes. */
  function SaveTarget(name: string): string {
    "data/" + Replace(name, "/", "_") + ".md"
  }

  /** A path to a `.md` file directly inside `data/`. */
  predicate InDataDir(path: string) {
    && |path| >= 8
    && path[..5] == "data/"
    && '/' !in path[5..]
    && path[|path| - 3..] == ".md"
  }

  /**
    `save_to_md_file` replaces every `'/'` of the name by `'_'`: the stem
    keeps its length, changes no other character, and the file lands
    directly inside `data/`.
   */
  lemma SaveTargetShape(name: string)
    ensures var stem := Replace(name, "/", "_");
            && |stem| == |name|
            && (forall i :: 0 <= i < |name| ==> stem[i] == (if name[i] == '/' then '_' else name[i]))
            && SaveTarget(name) == "data/" + stem + ".md"
            && (name != "" ==> InDataDir(SaveTarget(name)))
  {
    ReplaceCharPointwise(name, '/', '_');
    var stem := Replace(name, "/", "_");
    var t := SaveTarget(name);
    assert t[5..] == stem + ".md";
    assert '/' !in stem;
  }

  /** The name `process_github_url` passes has no `'/'` left, so the replacement changes nothing. */
  lemma SavedNameNeedsNoReplace(path: string)
    ensures SaveTarget(SavedName(path)) == "data/" + SavedName(path) + ".md"
  {
    var name := SavedName(path);
    ReplaceCharPointwise(name, '/', '_');
    assert Replace(name, "/", "_") == name;
  }

  /** The last segment of `a/b` is the last segment of `b`, whatever `a` holds. */
  lemma LastSegmentAfterSlash(a: string, b: string)
    ensures LastSegment(a + "/" + b) == LastSegment(b)
  {
    LastPieceAfterSlash(a, b);
  }

  lemma LastPieceAfterSlash(a: string, b: string)
    ensures LastPiece(Split(a + "/" + b, "/")) == LastPiece(Split(b, "/"))
  {
    SplitSlashAppend(a, b);
    LastOfAppend(Split(a + "/" + b, "/"), Split(a, "/"), Split(b, "/"));
  }

  lemma SplitSlashAppend(a: string, b: string)
    ensures Split(a + "/" + b, "/") == Split(a, "/") + Split(b, "/")
  {
    SplitCharAppend(a, '/', b);
  }

  lemma LastOfAppend(p: seq<string>, x: seq<string>, y: seq<string>)
    requires p == x + y && |y| >= 1
    ensures |p| >= 1 && LastPiece(p) == LastPiece(y)
  {
  }

  /** A file `name` in any directory is saved as `name` when it holds no `.js`. */
  lemma SavedNameOfFile(dir: string, name: string)
    requires '/' !in name && !Occurs(name, ".js")
    ensures SavedName(dir + "/" + name) == name
  {
    LastSegmentAfterSlash(dir, name);
    SplitCharNone(name, '/');
    ReplaceAbsent(name, ".js", "");
  }

  /** A `.js` file is saved under its name without the extension. */
  lemma JsExtensionDeleted(dir: string, stem: string)
    requires '/' !in stem
    requires forall i :: 0 <= i < |stem| ==> !MatchAt(stem + ".js", ".js", i)
    ensures SavedName(dir + "/" + stem + ".js") == stem
  {
    var name := stem + ".js";
    assert dir + "/" + stem + ".js" == dir + "/" + name;
    LastSegmentAfterSlash(dir, name);
    assert '/' !in name;
    SplitCharNone(name, '/');
    ReplaceSkipsPrefix(stem, ".js", ".js", "");
    assert Replace(".js", ".js", "") == "";
  }

  /**
    `.js` is deleted wherever it occurs, not only at the end: a `.json`
    file named `stem.json` is saved as `stem` followed by `on`.
   */
  lemma JsInsideJsonDeleted(dir: string, stem: string)
    requires '/' !in stem
    requires forall i :: 0 <= i < |stem| ==> !MatchAt(stem + ".json", ".js", i)
    ensures SavedName(dir + "/" + stem + ".json") == stem + "on"
  {
    var name := stem + ".json";
    assert dir + "/" + stem + ".json" == dir + "/" + name;
    LastSegmentAfterSlash(dir, name);
    assert '/' !in name;
    SplitCharNone(name, '/');
    ReplaceSkipsPrefix(stem, ".json", ".js", "");
    var json := ".json";
    assert json[..3] == ".js" && json[3..] == "on";
    assert Replace("on", ".js", "") == "on";
  }

  /** The file `process_github_url` writes for a URL that comes apart as `f`. */
  function TargetOf(f: RepoFile): string {
    SaveTarget(SavedName(f.filePath))
  }

  /** `process_github_url(url)` raises: the URL cannot be taken apart, the download raises, or the save does. */
  predicate Raises(url: string, fetch: RepoFile -> Fetched, canWrite: string -> bool) {
    match ExtractRepoDetails(url)
    case Err(_) => true
    case Ok(f) => fetch(f).Raised? || (fetch(f).Content? && fetch(f).text != "" && !canWrite(TargetOf(f)))
  }

  /**
    `process_github_url(url)` with the API call as `fetch`: an unsplittable
    URL raises `IndexError`, a download that raises raises `FetchError`, a
    missing or empty download writes nothing, and otherwise the content is
    written under the derived name, or `WriteError` is raised when it
    cannot be.
   */
  function ProcessGitHubUrl(url: string, fetch: RepoFile -> Fetched, canWrite: string -> bool)
    : (r: Result<Option<Saved>, ScrapeError>)
    ensures r.Err? <==> Raises(url, fetch, canWrite)
    ensures r == Err(IndexError) <==> ExtractRepoDetails(url).Err?
    ensures ExtractRepoDetails(url).Ok? ==>
              var f := ExtractRepoDetails(url).value;
              && (r == Err(FetchError) <==> fetch(f).Raised?)
              && (r == Ok(None) <==> fetch(f).NoFile? || fetch(f) == Content(""))
              && (r.Ok? && r.value.Some? ==>
                    && fetch(f) == Content(r.value.value.content)
                    && r.value.value.content != ""
                    && canWrite(r.value.value.path)
                    && r.value.value.path == "data/" + SavedName(f.filePath) + ".md")
  {
    match ExtractRepoDetails(url)
    case Err(e) => Err(e)
    case Ok(f) =>
      match fetch(f)
      case Raised => Err(FetchError)
      case NoFile => Ok(None)
      case Content(text) =>
        if text == "" then Ok(None)
        else if !canWrite(TargetOf(f)) then Err(WriteError)
        else
          SavedNameNeedsNoReplace(f.filePath);
          Ok(Some(Saved(TargetOf(f), text)))
  }

  /** What `process_github_url` does for each URL, in order. */
  function Outcomes(urls: seq<string>, fetch: RepoFile -> Fetched, canWrite: string -> bool)
    : (outs: seq<Result<Option<Saved>, ScrapeError>>)
    ensures |outs| == |urls|
    ensures forall j :: 0 <= j < |urls| ==> outs[j] == ProcessGitHubUrl(urls[j], fetch, canWrite)
  {
    seq(|urls|, j requires 0 <= j < |urls| => ProcessGitHubUrl(urls[j], fetch, canWrite))
  }

  /**
    The loop of `process_urls_from_file`, given each URL's outcome: the
    first exception ends it.  The run fails iff some outcome is an
    exception, and it writes at most one file per outcome.
   */
  function RunOf(outs: seq<Result<Option<Saved>, ScrapeError>>): (run: Run)
    ensures run.failure.None? <==> forall j :: 0 <= j < |outs| ==> outs[j].Ok?
    ensures |run.saved| <= |outs|
  {
    if outs == [] then Run([], None)
    else
      assert forall j :: 1 <= j < |outs| ==> outs[j] == outs[1..][j - 1];
      match outs[0]
      case Err(e) => Run([], Some(e))
      case Ok(None) => RunOf(outs[1..])
      case Ok(Some(s)) =>
        var rest := RunOf(outs[1..]);
        Run([s] + rest.saved, rest.failure)
  }

  /**
    The loop of `process_urls_from_file` over the URLs: nothing catches an
    exception, so the run fails iff some URL raises; it writes at most one
    file per URL.
   */
  function ProcessUrls(urls: seq<string>, fetch: RepoFile -> Fetched, canWrite: string -> bool): (run: Run)
    ensures run.failure.None? <==> forall j :: 0 <= j < |urls| ==> !Raises(urls[j], fetch, canWrite)
    ensures |run.saved| <= |urls|
  {
    RunOf(Outcomes(urls, fetch, canWrite))
  }

  /**
    `process_urls_from_file(file_path)` on the file's text: it ends with an
    exception exactly when some non-blank line's URL raises, and then with
    the exception of the first such URL; it writes at most one file per
    non-blank line.
   */
  function ProcessUrlFile(text: string, fetch: RepoFile -> Fetched, canWrite: string -> bool): (run: Run)
    ensures var urls := UrlsToVisit(text);
            && (run.failure.None? <==> forall j :: 0 <= j < |urls| ==> !Raises(urls[j], fetch, canWrite))
            && (run.failure.Some? ==>
                  exists j :: 0 <= j < |urls| && Raises(urls[j], fetch, canWrite)
                    && (forall k :: 0 <= k < j ==> !Raises(urls[k], fetch, canWrite))
                    && ProcessGitHubUrl(urls[j], fetch, canWrite) == Err(run.failure.value))
            && |run.saved| <= |urls|
  {
    ProcessUrlsOutcome(UrlsToVisit(text), fetch, canWrite);
    ProcessUrls(UrlsToVisit(text), fetch, canWrite)
  }

  /** A blank or all-whitespace line of the URL file changes nothing in the run. */
  lemma ProcessUrlFileBlankLine(a: string, w: string, b: string, fetch: RepoFile -> Fetched, canWrite: string -> bool)
    requires a == "" || a[|a| - 1] == '\n'
    requires AllSpace(w) && '\n' !in w
    ensures ProcessUrlFile(a + (w + "\n") + b, fetch, canWrite) == ProcessUrlFile(a + b, fetch, canWrite)
  {
    BlankLineIgnored(a, w, b);
  }

  /**
    The run ends with an exception exactly when some URL raises, and that
    exception is the one of the first such URL; it writes at most one file
    per URL, and every file is non-empty and lands directly inside `data/`.
   */
  lemma ProcessUrlsOutcome(urls: seq<string>, fetch: RepoFile -> Fetched, canWrite: string -> bool)
    ensures ProcessUrls(urls, fetch, canWrite).failure.None? <==>
              forall j :: 0 <= j < |urls| ==> !Raises(urls[j], fetch, canWrite)
    ensures ProcessUrls(urls, fetch, canWrite).failure.Some? ==>
              exists j :: 0 <= j < |urls| && Raises(urls[j], fetch, canWrite)
                && (forall k :: 0 <= k < j ==> !Raises(urls[k], fetch, canWrite))
                && ProcessGitHubUrl(urls[j], fetch, canWrite) == Err(ProcessUrls(urls, fetch, canWrite).failure.value)
    ensures |ProcessUrls(urls, fetch, canWrite).saved| <= |urls|
    ensures forall s :: s in ProcessUrls(urls, fetch, canWrite).saved ==> InDataDir(s.path) && s.content != ""
  {
    var outs := Outcomes(urls, fetch, canWrite);
    RunOfOutcome(outs);
    forall j | 0 <= j < |outs| && outs[j].Ok? && outs[j].value.Some?
      ensures InDataDir(outs[j].value.value.path) && outs[j].value.value.content != ""
    {
      var f := ExtractRepoDetails(urls[j]).value;
      SaveTargetShape(SavedName(f.filePath));
      SavedNameNeedsNoReplace(f.filePath);
    }
  }

  /**
    When no download raises and every target can be written, the only way a
    run can end early is a URL that cannot be taken apart.
   */
  lemma ProcessUrlsOnlySplitFails(urls: seq<string>, fetch: RepoFile -> Fetched, canWrite: string -> bool)
    requires forall f :: !fetch(f).Raised?
    requires forall p :: canWrite(p)
    ensures ProcessUrls(urls, fetch, canWrite).failure.None? <==>
              forall j :: 0 <= j < |urls| ==> ExtractRepoDetails(urls[j]).Ok?
    ensures ProcessUrls(urls, fetch, canWrite).failure.Some? ==>
              ProcessUrls(urls, fetch, canWrite).failure == Some(IndexError)
  {
    ProcessUrlsOutcome(urls, fetch, canWrite);
  }

  /**
    A run fails iff some outcome is an exception, and then with the first
    one; it writes at most one file per outcome, each from one outcome.
   */
  lemma {:induction false} RunOfOutcome(outs: seq<Result<Option<Saved>, ScrapeError>>)
    ensures RunOf(outs).failure.None? <==> forall j :: 0 <= j < |outs| ==> outs[j].Ok?
    ensures RunOf(outs).failure.Some? ==>
              exists j :: 0 <= j < |outs| && outs[j] == Err(RunOf(outs).failure.value)
                && forall k :: 0 <= k < j ==> outs[k].Ok?
    ensures |RunOf(outs).saved| <= |outs|
    ensures forall s :: s in RunOf(outs).saved ==>
              exists j :: 0 <= j < |outs| && outs[j] == Ok(Some(s))
    decreases |outs|
  {
    if outs != [] {
      RunOfOutcome(outs[1..]);
      assert forall j :: 1 <= j < |outs| ==> outs[j] == outs[1..][j - 1];
      forall s | s in RunOf(outs[1..]).saved
        ensures exists j :: 0 <= j < |outs| && outs[j] == Ok(Some(s))
      {
        var j :| 0 <= j < |outs[1..]| && outs[1..][j] == Ok(Some(s));
        assert outs[j + 1] == Ok(Some(s));
      }
      if outs[0].Ok? && RunOf(outs).failure.Some? {
        var j :| 0 <= j < |outs[1..]| && outs[1..][j] == Err(RunOf(outs[1..]).failure.value)
                 && forall k :: 0 <= k < j ==> outs[1..][k].Ok?;
        assert outs[j + 1] == Err(RunOf(outs).failure.value);
        assert forall k :: 1 <= k < j + 1 ==> outs[k] == outs[1..][k - 1];
      }
    }
  }

  /**
    URLs are handled in file order and the first exception ends the run:
    running over `a + b` is running over `a`, then, if `a` raised nothing,
    over `b`.
   */
  lemma ProcessUrlsAppend(a: seq<string>, b: seq<string>, fetch: RepoFile -> Fetched, canWrite: string -> bool)
    ensures var ra := ProcessUrls(a, fetch, canWrite);
            var rb := ProcessUrls(b, fetch, canWrite);
            ProcessUrls(a + b, fetch, canWrite) ==
              if ra.failure.Some? then ra
              else Run(ra.saved + rb.saved, rb.failure)
  {
    OutcomesAppend(a, b, fetch, canWrite);
    RunOfAppend(Outcomes(a, fetch, canWrite), Outcomes(b, fetch, canWrite));
  }

  lemma OutcomesAppend(a: seq<string>, b: seq<string>, fetch: RepoFile -> Fetched, canWrite: string -> bool)
    ensures Outcomes(a + b, fetch, canWrite) == Outcomes(a, fetch, canWrite) + Outcomes(b, fetch, canWrite)
  {
    var o, oa, ob := Outcomes(a + b, fetch, canWrite), Outcomes(a, fetch, canWrite), Outcomes(b, fetch, canWrite);
    forall j | 0 <= j < |o|
      ensures o[j] == (oa + ob)[j]
    {
      if j < |a| {
        assert (a + b)[j] == a[j];
      } else {
        assert (a + b)[j] == b[j - |a|];
      }
    }
  }

  lemma {:induction false} RunOfAppend(a: seq<Result<Option<Saved>, ScrapeError>>, b: seq<Result<Option<Saved>, ScrapeError>>)
    ensures RunOf(a + b) ==
              if RunOf(a).failure.Some? then RunOf(a)
              else Run(RunOf(a).saved + RunOf(b).saved, RunOf(b).failure)
    decreases |a|
  {
    if a == [] {
      assert a + b == b;
    } else {
      assert (a + b)[0] == a[0];
      assert (a + b)[1..] == a[1..] + b;
      RunOfAppend(a[1..], b);
      var tail := RunOf(a[1..]);
      if a[0].Ok? && a[0].value.Some? && tail.failure.None? {
        var s := a[0].value.value;
        assert [s] + (tail.saved + RunOf(b).saved) == [s] + tail.saved + RunOf(b).saved;
      }
    }
  }
}
