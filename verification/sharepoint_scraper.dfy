/**
  The pure part of the SharePoint scraper: the file name a page is saved
  under (the page title with every character of a nine-character class
  deleted by `re.sub`, then `.md`, joined onto `data` by `os.path.join`),
  and the run over the URL file.  Logging in, loading pages and extracting
  their text are browser work and left out; what visiting a URL yields is a
  parameter.
 */
module SharePointScraper {
  import opened Results
  import opened PyStrings
  import opened UrlFile

  /** The nine characters the sanitiser's character class deletes. */
  predicate Forbidden(c: char) {
    || c == '\\' || c == '/' || c == '*' || c == '?' || c == ':'
    || c == '"' || c == '<' || c == '>' || c == '|'
  }

  /** No forbidden character anywhere. */
  predicate Clean(s: string) {
    forall i :: 0 <= i < |s| ==> !Forbidden(s[i])
  }

  /** `re.sub` of the class with `""`: every forbidden character deleted. */
  function Sanitize(title: string): (stem: string)
    ensures Clean(stem)
  {
    if title == [] then []
    else
      var rest := Sanitize(title[1..]);
      var stem := (if Forbidden(title[0]) then [] else [title[0]]) + rest;
      assert forall i :: 0 < i < |stem| ==> stem[i] == rest[i - (|stem| - |rest|)];
      stem
  }

  /** The name the page's text is saved under. */
  function SafeFileName(title: string): (name: string)
    ensures |name| >= 3 && name[|name| - 3..] == ".md"
    ensures Clean(name[..|name| - 3])
  {
    var name := Sanitize(title) + ".md";
    assert name[..|name| - 3] == Sanitize(title);
    name
  }

  /**
    `os.path.join(a, b)` on POSIX, for one component: the result always
    ends with `b`; an absolute `b` replaces `a`, and otherwise the result
    starts with `a` and holds exactly one more character than both when a
    `'/'` has to be put between them.
   */
  function PathJoin(a: string, b: string): (path: string)
    ensures |b| <= |path| && path[|path| - |b|..] == b
    ensures b != [] && b[0] == '/' ==> path == b
    ensures !(b != [] && b[0] == '/') ==> |a| <= |path| && path[..|a|] == a
    ensures !(b != [] && b[0] == '/') ==> |path| <= |a| + |b| + 1
  {
    if b != [] && b[0] == '/' then b
    else if a == [] || a[|a| - 1] == '/' then a + b
    else a + "/" + b
  }

  /** The file `save_page_content` writes for a page with this title. */
  function SavePath(title: string): string {
    PathJoin("data", SafeFileName(title))
  }

  /**
    Deletion works character by character: sanitising a concatenation is
    concatenating the sanitised parts, and one character is kept exactly
    when it is not forbidden.
   */
  lemma {:induction false} SanitizeAppend(a: string, b: string)
    ensures Sanitize(a + b) == Sanitize(a) + Sanitize(b)
    decreases |a|
  {
    if a == [] {
      assert a + b == b;
    } else {
      assert (a + b)[0] == a[0];
      assert (a + b)[1..] == a[1..] + b;
      SanitizeAppend(a[1..], b);
    }
  }

  lemma SanitizeOne(c: char)
    ensures Sanitize([c]) == if Forbidden(c) then [] else [c]
  {
    assert [c][1..] == [];
  }

  /** A title without forbidden characters is kept as it is; so sanitising twice is sanitising once. */
  lemma {:induction false} SanitizeClean(s: string)
    requires Clean(s)
    ensures Sanitize(s) == s
    decreases |s|
  {
    if s != [] {
      assert Clean(s[1..]) by {
        forall i | 0 <= i < |s[1..]| ensures !Forbidden(s[1..][i]) {
          assert s[1..][i] == s[i + 1];
        }
      }
      SanitizeClean(s[1..]);
      assert [s[0]] + s[1..] == s;
    }
  }

  lemma SanitizeIdempotent(title: string)
    ensures Sanitize(Sanitize(title)) == Sanitize(title)
  {
    SanitizeClean(Sanitize(title));
  }

  /**
    Every allowed character keeps its number of occurrences and every
    forbidden one is gone: the stem is the title with exactly the forbidden
    characters deleted.
   */
  lemma {:induction false} SanitizeCounts(title: string, c: char)
    ensures Count(Sanitize(title), c) == if Forbidden(c) then 0 else Count(title, c)
    decreases |title|
  {
    if title != [] {
      SanitizeCounts(title[1..], c);
      var head := if Forbidden(title[0]) then [] else [title[0]];
      CountAppend(head, Sanitize(title[1..]), c);
      assert Count(head, c) == if title[0] == c && !Forbidden(c) then 1 else 0 by {
        if head != [] {
          assert head[1..] == [];
        }
      }
    }
  }

  /** The stem is never longer than the title, and as long exactly when nothing was deleted. */
  lemma {:induction false} SanitizeLength(title: string)
    ensures |Sanitize(title)| <= |title|
    ensures |Sanitize(title)| == |title| <==> Clean(title)
    decreases |title|
  {
    if title != [] {
      SanitizeLength(title[1..]);
      if Clean(title) {
        SanitizeClean(title);
      }
      if Clean(title[1..]) && !Forbidden(title[0]) {
        forall i | 0 <= i < |title|
          ensures !Forbidden(title[i])
        {
          if i > 0 {
            assert title[i] == title[1..][i - 1];
          }
        }
      }
      if !Clean(title[1..]) {
        var i :| 0 <= i < |title[1..]| && Forbidden(title[1..][i]);
        assert Forbidden(title[i + 1]);
      }
    }
  }

  /**
    The page is written directly inside `data/`: the sanitised name holds
    no `'/'`, so `os.path.join` never escapes the directory.
   */
  lemma SavePathInData(title: string)
    ensures SavePath(title) == "data/" + SafeFileName(title)
    ensures '/' !in SafeFileName(title)
  {
    var stem := Sanitize(title);
    CleanNoSlash(stem);
    var name := SafeFileName(title);
    assert name == stem + ".md";
    assert name[0] != '/';
    assert PathJoin("data", name) == "data" + "/" + name;
  }

  /** A clean stem with `.md` after it holds no `'/'`. */
  lemma CleanNoSlash(stem: string)
    requires Clean(stem)
    ensures '/' !in stem + ".md"
  {
    var name := stem + ".md";
    forall i | 0 <= i < |name|
      ensures name[i] != '/'
    {
      if i < |stem| {
        assert name[i] == stem[i];
      } else {
        assert name[i] == ".md"[i - |stem|];
      }
    }
  }

  /**
    `process_urls_from_file` over a list of URLs.  `visit(url)` is the page
    title when `save_page_content` writes its file, and `None` when anything
    inside its `try` raises (the page load, the title, the `open` or the
    write): the exception is printed and the loop goes on with the next URL.
   */
  function Saved(urls: seq<string>, visit: string -> Option<string>): (paths: seq<string>)
    ensures |paths| <= |urls|
    ensures forall p :: p in paths ==>
              exists j :: 0 <= j < |urls| && visit(urls[j]).Some? && p == "data/" + SafeFileName(visit(urls[j]).value)
  {
    if urls == [] then []
    else
      var rest := Saved(urls[1..], visit);
      assert forall j :: 0 <= j < |urls[1..]| ==> urls[1..][j] == urls[j + 1];
      match visit(urls[0])
      case None => rest
      case Some(title) => SavePathInData(title); [SavePath(title)] + rest
  }

  /**
    Each URL is handled on its own and an exception never ends the run: the
    files of two lists of URLs are the files of the first followed by those
    of the second.
   */
  lemma {:induction false} SavedAppend(a: seq<string>, b: seq<string>, visit: string -> Option<string>)
    ensures Saved(a + b, visit) == Saved(a, visit) + Saved(b, visit)
    decreases |a|
  {
    if a == [] {
      assert a + b == b;
    } else {
      assert (a + b)[0] == a[0];
      assert (a + b)[1..] == a[1..] + b;
      SavedAppend(a[1..], b, visit);
    }
  }

  /** One URL writes one file named after its title, or nothing when its processing raises. */
  lemma SavedOne(u: string, visit: string -> Option<string>)
    ensures Saved([u], visit) ==
              match visit(u)
              case None => []
              case Some(title) => ["data/" + SafeFileName(title)]
  {
    assert [u][1..] == [];
    if visit(u).Some? {
      SavePathInData(visit(u).value);
    }
  }

  /** When no URL raises, every URL gives one file, in the order of the list. */
  lemma {:induction false} SavedAllVisited(urls: seq<string>, visit: string -> Option<string>)
    requires forall j :: 0 <= j < |urls| ==> visit(urls[j]).Some?
    ensures |Saved(urls, visit)| == |urls|
    ensures forall j :: 0 <= j < |urls| ==> Saved(urls, visit)[j] == "data/" + SafeFileName(visit(urls[j]).value)
    decreases |urls|
  {
    if urls != [] {
      assert forall j :: 0 <= j < |urls[1..]| ==> urls[1..][j] == urls[j + 1];
      SavedAllVisited(urls[1..], visit);
      SavePathInData(visit(urls[0]).value);
    }
  }

  /** The files written for a URL file: the URLs the loop visits, each saved unless it raised. */
  function SavedPaths(text: string, visit: string -> Option<string>): (paths: seq<string>)
    ensures |paths| <= |UrlsToVisit(text)|
    ensures forall p :: p in paths ==>
              exists j :: 0 <= j < |UrlsToVisit(text)| && visit(UrlsToVisit(text)[j]).Some?
                          && p == "data/" + SafeFileName(visit(UrlsToVisit(text)[j]).value)
  {
    Saved(UrlsToVisit(text), visit)
  }
}
