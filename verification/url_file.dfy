/**
  The URL list both scrapers read: `file.readlines()`, then every line is
  `strip()`ped and the empty ones are skipped; the rest are visited in file
  order.  The file is already decoded text; universal-newline translation
  of `"\r\n"` is not modelled (a `'\r'` before the `'\n'` is whitespace and
  is stripped anyway).
 */
module UrlFile {
  import opened PyStrings

  /** Length of the first line of a non-empty text, its `'\n'` included when it has one. */
  function LineLength(s: string): (n: nat)
    requires s != []
    ensures 1 <= n <= |s|
    decreases |s|
  {
    if s[0] == '\n' || |s| == 1 then 1 else 1 + LineLength(s[1..])
  }

  /** The first line ends at the first `'\n'`, or at the end of the text when it has none. */
  lemma {:induction false} LineLengthSpec(s: string)
    requires s != []
    ensures forall k :: 0 <= k < LineLength(s) - 1 ==> s[k] != '\n'
    ensures LineLength(s) < |s| ==> s[LineLength(s) - 1] == '\n'
    decreases |s|
  {
    if s[0] != '\n' && |s| > 1 {
      LineLengthSpec(s[1..]);
      forall k | 1 <= k < LineLength(s) - 1
        ensures s[k] != '\n'
      {
        assert s[k] == s[1..][k - 1];
      }
    }
  }

  /** A line without `'\n'` followed by one is a whole first line. */
  lemma {:induction false} LineLengthOfLine(u: string)
    requires '\n' !in u
    ensures LineLength(u + "\n") == |u| + 1
    decreases |u|
  {
    var s := u + "\n";
    if u != [] {
      assert s[0] == u[0];
      assert s[1..] == u[1..] + "\n";
      LineLengthOfLine(u[1..]);
    }
  }

  /**
    `file.readlines()`: the text cut after every `'\n'`, each line keeping
    its `'\n'`.  An empty file has no lines, and there are never more
    lines than characters.
   */
  function ReadLines(text: string): (lines: seq<string>)
    ensures |lines| <= |text|
    ensures lines == [] <==> text == []
    decreases |text|
  {
    if text == [] then []
    else
      var n := LineLength(text);
      [text[..n]] + ReadLines(text[n..])
  }

  /** Reading loses nothing: the lines, concatenated, are the text. */
  lemma {:induction false} ReadLinesConcat(text: string)
    ensures Concat(ReadLines(text)) == text
    decreases |text|
  {
    if text != [] {
      var n := LineLength(text);
      ReadLinesConcat(text[n..]);
      assert ([text[..n]] + ReadLines(text[n..]))[1..] == ReadLines(text[n..]);
      assert text == text[..n] + text[n..];
    }
  }

  /** The body of `process_urls_from_file`'s loop for one line: its stripped text, unless that is empty. */
  function UrlOf(line: string): seq<string> {
    var u := Strip(line);
    if u == "" then [] else [u]
  }

  /** The outputs of `f` for each line, in line order. */
  function ConcatMap(lines: seq<string>, f: string -> seq<string>): seq<string> {
    if lines == [] then [] else f(lines[0]) + ConcatMap(lines[1..], f)
  }

  /** `process_urls_from_file`'s loop over the lines read. */
  function UrlsOf(lines: seq<string>): seq<string> {
    ConcatMap(lines, UrlOf)
  }

  /**
    The URLs `process_urls_from_file` visits, in the order it visits them:
    never empty, and never starting or ending with whitespace.
   */
  function UrlsToVisit(text: string): (urls: seq<string>)
    ensures forall u :: u in urls ==> u != "" && Trimmed(u)
  {
    var lines := ReadLines(text);
    UrlsOfMembers(lines);
    UrlsOf(lines)
  }

  /** The URLs visited are exactly the non-blank lines of the file, each with its surrounding whitespace removed. */
  lemma UrlsToVisitAreLines(text: string)
    ensures var lines := ReadLines(text);
            forall u :: u in UrlsToVisit(text) <==> u != "" && exists j :: 0 <= j < |lines| && u == Strip(lines[j])
  {
    var lines := ReadLines(text);
    var urls := UrlsToVisit(text);
    assert urls == UrlsOf(lines);
    UrlsOfMembers(lines);
    forall u
      ensures u in urls <==> u != "" && exists j :: 0 <= j < |lines| && u == Strip(lines[j])
    {
      assert u in urls <==> u in UrlsOf(lines);
    }
  }

  /** A text written with one line per entry, each ended by `'\n'`. */
  function FileOf(lines: seq<string>): string {
    if lines == [] then "" else lines[0] + "\n" + FileOf(lines[1..])
  }

  /** Lines are processed one by one: the filter distributes over concatenation. */
  lemma UrlsOfAppend(a: seq<string>, b: seq<string>)
    ensures UrlsOf(a + b) == UrlsOf(a) + UrlsOf(b)
  {
    ConcatMapAppend(a, b, UrlOf);
  }

  lemma {:induction false} ConcatMapAppend(a: seq<string>, b: seq<string>, f: string -> seq<string>)
    ensures ConcatMap(a + b, f) == ConcatMap(a, f) + ConcatMap(b, f)
    decreases |a|
  {
    if a == [] {
      assert a + b == b;
    } else {
      assert (a + b)[0] == a[0];
      assert (a + b)[1..] == a[1..] + b;
      ConcatMapAppend(a[1..], b, f);
    }
  }

  /** Reading a text that ends a line before `b` starts reads `b`'s lines separately. */
  lemma {:induction false} ReadLinesAppend(a: string, b: string)
    requires a == "" || a[|a| - 1] == '\n'
    ensures ReadLines(a + b) == ReadLines(a) + ReadLines(b)
    decreases |a|
  {
    if a == "" {
      assert a + b == b;
    } else {
      var n := LineLength(a);
      LineLengthAppend(a, b);
      var ab := a + b;
      assert ab[..n] == a[..n];
      assert ab[n..] == a[n..] + b;
      ReadLinesAppend(a[n..], b);
      assert ReadLines(ab) == [a[..n]] + (ReadLines(a[n..]) + ReadLines(b));
      assert ReadLines(a) == [a[..n]] + ReadLines(a[n..]);
      ConsAppend(a[..n], ReadLines(a[n..]), ReadLines(b));
    }
  }

  lemma ConsAppend(x: string, p: seq<string>, q: seq<string>)
    ensures [x] + (p + q) == ([x] + p) + q
  {
  }

  /** Text after a complete line does not move the end of that line. */
  lemma {:induction false} LineLengthAppend(a: string, b: string)
    requires a != "" && a[|a| - 1] == '\n'
    ensures LineLength(a + b) == LineLength(a)
    decreases |a|
  {
    if a[0] != '\n' {
      assert (a + b)[0] == a[0];
      assert (a + b)[1..] == a[1..] + b;
      LineLengthAppend(a[1..], b);
    }
  }

  /** A line without `'\n'`, ended by one, is read as one line, whatever follows it. */
  lemma ReadOneLine(u: string, rest: string)
    requires '\n' !in u
    ensures ReadLines(u + "\n" + rest) == [u + "\n"] + ReadLines(rest)
  {
    var first := u + "\n";
    LineLengthOfLine(u);
    assert first[..|first|] == first && first[|first|..] == "";
    assert ReadLines(first) == [first];
    ReadLinesAppend(first, rest);
  }

  /** A file of lines without `'\n'` reads back as those lines, each with its `'\n'`. */
  lemma {:induction false} ReadLinesOfFile(lines: seq<string>)
    requires forall j :: 0 <= j < |lines| ==> '\n' !in lines[j]
    ensures |ReadLines(FileOf(lines))| == |lines|
    ensures forall j :: 0 <= j < |lines| ==> ReadLines(FileOf(lines))[j] == lines[j] + "\n"
    decreases |lines|
  {
    if lines != [] {
      ReadOneLine(lines[0], FileOf(lines[1..]));
      assert forall j :: 0 <= j < |lines[1..]| ==> '\n' !in lines[1..][j] by {
        forall j | 0 <= j < |lines[1..]| ensures lines[1..][j] == lines[j + 1] {}
      }
      ReadLinesOfFile(lines[1..]);
    }
  }

  /**
    Writing trimmed, non-empty URLs one per line and reading the file back
    visits exactly those URLs, in order.
   */
  lemma {:induction false} UrlsRoundTrip(urls: seq<string>)
    requires forall j :: 0 <= j < |urls| ==> urls[j] != "" && Trimmed(urls[j]) && '\n' !in urls[j]
    ensures UrlsToVisit(FileOf(urls)) == urls
    decreases |urls|
  {
    if urls != [] {
      var u := urls[0];
      var more := ReadLines(FileOf(urls[1..]));
      ReadOneLine(u, FileOf(urls[1..]));
      StripNewline(u);
      UrlsRoundTrip(urls[1..]);
      assert ([u + "\n"] + more)[1..] == more;
    }
  }

  lemma StripNewline(u: string)
    requires u != "" && Trimmed(u)
    ensures Strip(u + "\n") == u
  {
    assert AllSpace("\n");
    StripPadded(u, "\n");
  }

  /**
    A blank line (whitespace only) anywhere in the file changes nothing: the
    URLs visited are those of the file without it.
   */
  lemma BlankLineIgnored(a: string, w: string, b: string)
    requires a == "" || a[|a| - 1] == '\n'
    requires AllSpace(w) && '\n' !in w
    ensures UrlsToVisit(a + (w + "\n") + b) == UrlsToVisit(a + b)
  {
    var blank := w + "\n";
    ReadBlankLine(a, w, b);
    BlankStripsEmpty(w);
    ReadLinesAppend(a, b);
    UrlsOfSkipsBlank(ReadLines(a), blank, ReadLines(b));
  }

  /** The blank line is read as one line between the lines of `a` and those of `b`. */
  lemma ReadBlankLine(a: string, w: string, b: string)
    requires a == "" || a[|a| - 1] == '\n'
    requires '\n' !in w
    ensures ReadLines(a + (w + "\n") + b) == ReadLines(a) + [w + "\n"] + ReadLines(b)
  {
    var line := w + "\n";
    var rest := line + b;
    assert a + line + b == a + rest;
    ReadOneLine(w, b);
    ReadLinesAppend(a, rest);
    ConcatAssoc(ReadLines(a), [line], ReadLines(b));
  }

  lemma ConcatAssoc(x: seq<string>, y: seq<string>, z: seq<string>)
    ensures x + (y + z) == x + y + z
  {
  }

  lemma BlankStripsEmpty(w: string)
    requires AllSpace(w)
    ensures AllSpace(w + "\n")
    ensures Strip(w + "\n") == ""
  {
    assert AllSpace(w + "\n") by {
      forall i | 0 <= i < |w + "\n"|
        ensures IsSpace((w + "\n")[i])
      {
        if i < |w| {
          assert (w + "\n")[i] == w[i];
        }
      }
    }
  }

  /** A whitespace-only line contributes no URL, wherever it stands. */
  lemma UrlsOfSkipsBlank(ra: seq<string>, l: string, rb: seq<string>)
    requires AllSpace(l)
    ensures UrlsOf(ra + [l] + rb) == UrlsOf(ra + rb)
  {
    ConcatMapSkips(ra, l, rb, UrlOf);
  }

  /** A line `f` maps to nothing can be dropped from the input. */
  lemma ConcatMapSkips(ra: seq<string>, l: string, rb: seq<string>, f: string -> seq<string>)
    requires f(l) == []
    ensures ConcatMap(ra + [l] + rb, f) == ConcatMap(ra + rb, f)
  {
    var s := [l] + rb;
    assert s[0] == l && s[1..] == rb;
    assert ConcatMap(s, f) == ConcatMap(rb, f);
    ConcatMapAppend(ra, s, f);
    ConcatMapAppend(ra, rb, f);
    assert ra + [l] + rb == ra + s;
  }

  function LastChar(s: string): char
    requires s != []
  {
    s[|s| - 1]
  }

  /** Lines are never empty, every line but the last ends with `'\n'`, and no line holds a `'\n'` anywhere else. */
  lemma {:induction false} ReadLinesBreaks(text: string)
    ensures forall j :: 0 <= j < |ReadLines(text)| ==> ReadLines(text)[j] != ""
    ensures forall j :: 0 <= j < |ReadLines(text)| - 1 ==> LastChar(ReadLines(text)[j]) == '\n'
    ensures forall j :: 0 <= j < |ReadLines(text)| ==> '\n' !in ReadLines(text)[j][..|ReadLines(text)[j]| - 1]
    decreases |text|
  {
    if text != [] {
      var n := LineLength(text);
      LineLengthSpec(text);
      ReadLinesBreaks(text[n..]);
      var rest := ReadLines(text[n..]);
      var lines := ReadLines(text);
      assert lines == [text[..n]] + rest;
      forall j | 0 <= j < |lines| - 1
        ensures LastChar(lines[j]) == '\n'
      {
        if j == 0 {
          assert text[n..] != [];
          assert lines[0][n - 1] == text[n - 1];
        } else {
          assert lines[j] == rest[j - 1];
        }
      }
      forall j | 0 <= j < |lines|
        ensures '\n' !in lines[j][..|lines[j]| - 1]
      {
        if j == 0 {
          assert forall k :: 0 <= k < n - 1 ==> lines[0][..n - 1][k] == text[k];
        } else {
          assert lines[j] == rest[j - 1];
        }
      }
    }
  }

  /**
    The URLs visited are exactly the stripped lines that are not empty: each
    is non-empty, already trimmed, and comes from one line of the file.
   */
  lemma UrlsOfMembers(lines: seq<string>)
    ensures forall u :: u in UrlsOf(lines) <==> u != "" && exists j :: 0 <= j < |lines| && u == Strip(lines[j])
    ensures forall u :: u in UrlsOf(lines) ==> Trimmed(u)
  {
    ConcatMapMembers(lines, UrlOf);
    forall j | 0 <= j < |lines| {
      UrlOfMembers(lines[j]);
    }
  }

  /** The one URL a line can give is its stripped text, when that is not empty. */
  lemma UrlOfMembers(line: string)
    ensures forall u :: u in UrlOf(line) <==> u != "" && u == Strip(line)
  {
  }

  /** A string comes out of `ConcatMap` iff `f` gives it for some line. */
  lemma {:induction false} ConcatMapMembers(lines: seq<string>, f: string -> seq<string>)
    ensures forall j, u :: 0 <= j < |lines| && u in f(lines[j]) ==> u in ConcatMap(lines, f)
    ensures forall u :: u in ConcatMap(lines, f) ==> exists j :: 0 <= j < |lines| && u in f(lines[j])
    decreases |lines|
  {
    if lines != [] {
      var tail := lines[1..];
      ConcatMapMembers(tail, f);
      assert forall j :: 1 <= j < |lines| ==> lines[j] == tail[j - 1];
      forall u | u in ConcatMap(tail, f)
        ensures exists j :: 0 <= j < |lines| && u in f(lines[j])
      {
        var j :| 0 <= j < |tail| && u in f(tail[j]);
        assert lines[j + 1] == tail[j];
      }
    }
  }

  /** A line whose only possible `'\n'` is its last character strips to a string without one. */
  lemma StripLine(l: string)
    requires l != [] && '\n' !in l[..|l| - 1]
    ensures '\n' !in Strip(l)
  {
    var body := l[..|l| - 1];
    var c := l[|l| - 1];
    assert l == body + [c];
    if c == '\n' {
      StripKeepsOut(body, '\n');
      StripTrailingSpace(body, '\n');
    } else {
      assert '\n' !in body + [c];
      StripKeepsOut(l, '\n');
    }
  }

  /** No visited URL contains a line break: each comes from inside one line. */
  lemma NoNewlineInUrls(text: string)
    ensures forall u :: u in UrlsToVisit(text) ==> '\n' !in u
  {
    var lines := ReadLines(text);
    ReadLinesBreaks(text);
    forall j | 0 <= j < |lines|
      ensures '\n' !in Strip(lines[j])
    {
      StripLine(lines[j]);
    }
    UrlsOfMembers(lines);
  }
}
