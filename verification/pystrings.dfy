/**
  Python `str` primitives used by the chunker, the URL reader and the two
  scrapers: `isspace`/`strip`, `split` with a non-empty separator, `join`
  and `replace`.  Each is defined by the
  leftmost, non-overlapping scan CPython performs, and the lemmas relate
  them to each other (`replace` is `join` of `split`, `split` inverts `join`
  for single-character separators, and so on).
 */
module PyStrings {

  /** `str.isspace` for one character (the Unicode whitespace set CPython uses). */
  predicate IsSpace(c: char) {
    || c == ' ' || c == '\t' || c == '\n' || c == '\r'
    || ('\U{0B}' <= c <= '\U{0C}')
    || ('\U{1C}' <= c <= '\U{1F}')
    || c == '\U{85}' || c == '\U{A0}' || c == '\U{1680}'
    || ('\U{2000}' <= c <= '\U{200A}')
    || c == '\U{2028}' || c == '\U{2029}' || c == '\U{202F}'
    || c == '\U{205F}' || c == '\U{3000}'
  }

  predicate AllSpace(s: string) {
    forall i :: 0 <= i < |s| ==> IsSpace(s[i])
  }

  /** A string `strip()` leaves alone: empty, or no whitespace at either end. */
  predicate Trimmed(s: string) {
    s == [] || (!IsSpace(s[0]) && !IsSpace(s[|s| - 1]))
  }

  /** `str.lstrip()`: drops the longest all-whitespace prefix. */
  function LStrip(s: string): (r: string)
    ensures |r| <= |s| && r == s[|s| - |r|..]
    ensures AllSpace(s[..|s| - |r|])
    ensures r != [] ==> !IsSpace(r[0])
  {
    if s != [] && IsSpace(s[0]) then
      var r := LStrip(s[1..]);
      assert s[..|s| - |r|] == [s[0]] + s[1..][..|s[1..]| - |r|];
      r
    else s
  }

  /** `str.rstrip()`: drops the longest all-whitespace suffix. */
  function RStrip(s: string): (r: string)
    ensures |r| <= |s| && r == s[..|r|]
    ensures AllSpace(s[|r|..])
    ensures r != [] ==> !IsSpace(r[|r| - 1])
  {
    if s != [] && IsSpace(s[|s| - 1]) then
      var r := RStrip(s[..|s| - 1]);
      assert s[|r|..] == s[..|s| - 1][|r|..] + [s[|s| - 1]];
      r
    else s
  }

  /** `str.strip()` with no argument. */
  function Strip(s: string): (r: string)
    ensures |r| <= |s|
    ensures Trimmed(r)
    ensures r == [] <==> AllSpace(s)
  {
    var l := LStrip(s);
    var r := RStrip(l);
    assert r != [] ==> r[0] == l[0];
    assert l != [] ==> l[0] == s[|s| - |l|];
    assert r == [] ==> l[|r|..] == l;
    assert r == [] ==> l == [];
    assert l == [] ==> s[..|s| - |l|] == s;
    r
  }

  /** `s.strip()` is `s` with only whitespace cut off before and after it. */
  lemma StripIsTrim(s: string)
    ensures exists w1, w2 :: s == w1 + Strip(s) + w2 && AllSpace(w1) && AllSpace(w2)
  {
    var l := LStrip(s);
    assert Strip(s) == RStrip(l);
    TrimOfSuffix(s, l, RStrip(l));
  }

  /** A prefix `r` of a suffix `l` of `s` is `s` with what was cut off on either side removed. */
  lemma TrimOfSuffix(s: string, l: string, r: string)
    requires |l| <= |s| && l == s[|s| - |l|..] && AllSpace(s[..|s| - |l|])
    requires |r| <= |l| && r == l[..|r|] && AllSpace(l[|r|..])
    ensures exists w1, w2 :: s == w1 + r + w2 && AllSpace(w1) && AllSpace(w2)
  {
    var w1 := s[..|s| - |l|];
    var w2 := l[|r|..];
    assert s == w1 + l;
    assert l == r + w2;
    assert s == w1 + r + w2;
  }

  /**
    `strip()` is determined by that: a trimmed string with only whitespace
    before and after it is what `strip()` gives back.
   */
  lemma StripUnique(w1: string, u: string, w2: string)
    requires AllSpace(w1) && AllSpace(w2) && Trimmed(u)
    ensures Strip(w1 + u + w2) == u
  {
    if u == [] {
      AllSpaceConcat(w1, w2);
      assert w1 + u + w2 == w1 + w2;
    } else {
      assert w1 + u + w2 == w1 + (u + w2);
      LStripPadded(w1, u + w2);
      RStripPadded(u, w2);
    }
  }

  lemma AllSpaceConcat(a: string, b: string)
    requires AllSpace(a) && AllSpace(b)
    ensures AllSpace(a + b)
  {
    forall k | 0 <= k < |a + b| ensures IsSpace((a + b)[k]) {
      if k >= |a| { assert (a + b)[k] == b[k - |a|]; }
    }
  }

  /** Leading whitespace before a string that starts with a non-whitespace character is removed by `lstrip()`. */
  lemma {:induction false} LStripPadded(w: string, v: string)
    requires AllSpace(w) && v != [] && !IsSpace(v[0])
    ensures LStrip(w + v) == v
    decreases |w|
  {
    if w == [] {
      assert w + v == v;
    } else {
      assert (w + v)[0] == w[0];
      assert (w + v)[1..] == w[1..] + v;
      LStripPadded(w[1..], v);
    }
  }

  /** `strip()` is the identity on strings that are already trimmed. */
  lemma StripTrimmed(s: string)
    requires Trimmed(s)
    ensures Strip(s) == s
  {
  }

  /** Trailing whitespace after a trimmed, non-empty string is removed by `strip()`. */
  lemma {:induction false} StripPadded(u: string, w: string)
    requires u != [] && Trimmed(u)
    requires AllSpace(w)
    ensures Strip(u + w) == u
  {
    assert LStrip(u + w) == u + w;
    RStripPadded(u, w);
  }

  lemma {:induction false} RStripPadded(u: string, w: string)
    requires u != [] && Trimmed(u)
    requires AllSpace(w)
    ensures RStrip(u + w) == u
    decreases |w|
  {
    if w == [] {
      assert u + w == u;
    } else {
      var w' := w[..|w| - 1];
      assert (u + w)[..|u + w| - 1] == u + w';
      RStripPadded(u, w');
    }
  }

  /** `strip()` only removes characters: one absent from `s` is absent from `s.strip()`. */
  lemma StripKeepsOut(s: string, c: char)
    requires c !in s
    ensures c !in Strip(s)
  {
    var l := LStrip(s);
    assert c !in l by {
      forall k | 0 <= k < |l| ensures l[k] != c {
        assert l[k] == s[|s| - |l| + k];
      }
    }
    var r := RStrip(l);
    assert r == Strip(s);
    forall k | 0 <= k < |r| ensures r[k] != c {
      assert r[k] == l[k];
    }
  }

  /** One more trailing whitespace character does not change `strip()`. */
  lemma StripTrailingSpace(s: string, c: char)
    requires IsSpace(c)
    ensures Strip(s + [c]) == Strip(s)
  {
    if AllSpace(s) {
      AllSpaceSnoc(s, c);
    } else {
      LStripTrailing(s, c);
      RStripTrailing(LStrip(s), c);
    }
  }

  lemma AllSpaceSnoc(s: string, c: char)
    requires AllSpace(s) && IsSpace(c)
    ensures AllSpace(s + [c])
  {
    forall i | 0 <= i < |s + [c]|
      ensures IsSpace((s + [c])[i])
    {
      if i < |s| {
        assert (s + [c])[i] == s[i];
      }
    }
  }

  lemma RStripTrailing(l: string, c: char)
    requires IsSpace(c)
    ensures RStrip(l + [c]) == RStrip(l)
  {
    assert (l + [c])[..|l|] == l;
  }

  lemma {:induction false} LStripTrailing(s: string, c: char)
    requires !AllSpace(s)
    ensures LStrip(s + [c]) == LStrip(s) + [c]
    decreases |s|
  {
    assert (s + [c])[0] == s[0];
    if IsSpace(s[0]) {
      assert (s + [c])[1..] == s[1..] + [c];
      assert !AllSpace(s[1..]) by {
        var k :| 0 <= k < |s| && !IsSpace(s[k]);
        assert s[1..][k - 1] == s[k];
      }
      LStripTrailing(s[1..], c);
    }
  }

  /** Python `sep.join(parts)`. */
  function Join(sep: string, parts: seq<string>): string
  {
    if |parts| == 0 then ""
    else if |parts| == 1 then parts[0]
    else parts[0] + sep + Join(sep, parts[1..])
  }

  /** The concatenation of a list of strings. */
  function Concat(parts: seq<string>): string {
    if parts == [] then "" else parts[0] + Concat(parts[1..])
  }

  /** Python `s.split(sep)` for a non-empty separator: leftmost, non-overlapping cuts. */
  function Split(s: string, sep: string): (parts: seq<string>)
    requires sep != ""
    ensures |parts| >= 1
    ensures Join(sep, parts) == s
    decreases |s|
  {
    if |s| < |sep| then [s]
    else if s[..|sep|] == sep then
      var rest := Split(s[|sep|..], sep);
      assert s == sep + s[|sep|..];
      [""] + rest
    else
      var rest := Split(s[1..], sep);
      JoinGrowFirst(sep, s[0], rest);
      assert s == [s[0]] + s[1..];
      [[s[0]] + rest[0]] + rest[1..]
  }

  /**
    What `split` computes: the pieces joined by `sep` give `s` back, no
    piece contains `sep`, and each cut is at the first match after the
    previous one (no match starts inside a piece and runs into the separator
    that follows it).
   */
  lemma {:induction false} SplitLeftmost(s: string, sep: string)
    requires sep != ""
    ensures LeftmostCuts(s, sep, Split(s, sep))
    ensures forall k :: 0 <= k < |Split(s, sep)| ==> !Occurs(Split(s, sep)[k], sep)
    decreases |s|
  {
    if |s| < |sep| {
      assert Split(s, sep) == [s];
    } else if s[..|sep|] == sep {
      SplitLeftmost(s[|sep|..], sep);
      LeftmostAtMatch(s, sep, Split(s[|sep|..], sep), Split(s, sep));
    } else {
      SplitLeftmost(s[1..], sep);
      LeftmostPastChar(s, sep, Split(s[1..], sep), Split(s, sep));
    }
  }

  /** When `s` starts with `sep`, an empty piece followed by a leftmost cutting of the rest is one of `s`. */
  lemma LeftmostAtMatch(s: string, sep: string, rest: seq<string>, parts: seq<string>)
    requires sep != "" && |s| >= |sep| && s[..|sep|] == sep
    requires LeftmostCuts(s[|sep|..], sep, rest)
    requires forall k :: 0 <= k < |rest| ==> !Occurs(rest[k], sep)
    requires parts == [""] + rest
    ensures LeftmostCuts(s, sep, parts)
    ensures forall k :: 0 <= k < |parts| ==> !Occurs(parts[k], sep)
  {
    assert forall k :: 1 <= k < |parts| ==> parts[k] == rest[k - 1];
    assert s == sep + s[|sep|..];
  }

  /** When `s` does not start with `sep`, its first character joins the first piece of a leftmost cutting of the rest. */
  lemma LeftmostPastChar(s: string, sep: string, rest: seq<string>, parts: seq<string>)
    requires sep != "" && |s| >= |sep| && s[..|sep|] != sep
    requires LeftmostCuts(s[1..], sep, rest)
    requires forall k :: 0 <= k < |rest| ==> !Occurs(rest[k], sep)
    requires parts == [[s[0]] + rest[0]] + rest[1..]
    ensures LeftmostCuts(s, sep, parts)
    ensures forall k :: 0 <= k < |parts| ==> !Occurs(parts[k], sep)
  {
    var piece := [s[0]] + rest[0];
    JoinGrowFirst(sep, s[0], rest);
    assert s == [s[0]] + s[1..];
    if |rest| > 1 {
      assert s == piece + sep + Join(sep, rest[1..]);
      assert (piece + sep)[..|sep|] == s[..|sep|];
      ConsLeftmost(s[0], rest[0], sep);
      LeftmostFree(piece, sep);
      assert forall k :: 1 <= k < |parts| ==> parts[k] == rest[k];
    } else {
      assert s == piece;
      ConsFree(s[0], rest[0], sep);
    }
  }

  /** No match of `sep` starts inside `p` when `sep` is written after it. */
  predicate CutsLeftmost(p: string, sep: string) {
    forall i :: 0 <= i < |p| ==> !MatchAt(p + sep, sep, i)
  }

  /** A piece cut at its leftmost match contains no match. */
  lemma LeftmostFree(p: string, sep: string)
    requires sep != "" && CutsLeftmost(p, sep)
    ensures !Occurs(p, sep)
  {
    forall i | MatchAt(p, sep, i)
      ensures false
    {
      assert (p + sep)[i..i + |sep|] == p[i..i + |sep|];
      assert MatchAt(p + sep, sep, i);
    }
  }

  /** A character that starts no match, put in front of a piece cut leftmost, keeps it leftmost. */
  lemma ConsLeftmost(c: char, t: string, sep: string)
    requires CutsLeftmost(t, sep)
    requires !MatchAt([c] + t + sep, sep, 0)
    ensures CutsLeftmost([c] + t, sep)
  {
    var u := [c] + t + sep;
    assert u[1..] == t + sep;
    assert [c] + t + sep == ([c] + t) + sep;
    forall i | 1 <= i < |[c] + t|
      ensures !MatchAt(u, sep, i)
    {
      MatchAtShift(u, sep, i - 1);
    }
  }

  /** A character that starts no match, put in front of a string without matches, adds none. */
  lemma ConsFree(c: char, t: string, sep: string)
    requires !Occurs(t, sep)
    requires !MatchAt([c] + t, sep, 0)
    ensures !Occurs([c] + t, sep)
  {
    var u := [c] + t;
    assert u[1..] == t;
    forall i | MatchAt(u, sep, i)
      ensures false
    {
      if i > 0 {
        MatchAtShift(u, sep, i - 1);
      }
    }
  }

  /** `parts` is a way of cutting `s` at leftmost matches of `sep`, as the contract of `Split` describes. */
  ghost predicate LeftmostCuts(s: string, sep: string, parts: seq<string>) {
    && |parts| >= 1
    && Join(sep, parts) == s
    && (forall k :: 0 <= k < |parts| - 1 ==> CutsLeftmost(parts[k], sep))
    && !Occurs(parts[|parts| - 1], sep)
  }

  /**
    The contract of `Split` determines its result: any cutting of `s` at
    leftmost matches of `sep` is `s.split(sep)`.
   */
  lemma {:induction false} SplitUnique(s: string, sep: string, parts: seq<string>)
    requires sep != "" && LeftmostCuts(s, sep, parts)
    ensures parts == Split(s, sep)
    decreases |s|
  {
    var sp := Split(s, sep);
    SplitLeftmost(s, sep);
    FirstPieceNotShorter(s, sep, parts, sp);
    FirstPieceNotShorter(s, sep, sp, parts);
    FirstPieceEqual(s, sep, parts, sp);
    if |parts| > 1 {
      var rest := Join(sep, parts[1..]);
      var m := |parts[0]| + |sep|;
      assert s == parts[0] + sep + rest;
      assert rest == s[m..];
      assert s == sp[0] + sep + Join(sep, sp[1..]);
      assert Join(sep, sp[1..]) == s[m..];
      assert LeftmostCuts(rest, sep, parts[1..]) by {
        assert forall k :: 0 <= k < |parts[1..]| ==> parts[1..][k] == parts[k + 1];
      }
      assert LeftmostCuts(rest, sep, sp[1..]) by {
        assert forall k :: 0 <= k < |sp[1..]| ==> sp[1..][k] == sp[k + 1];
      }
      SplitUnique(rest, sep, parts[1..]);
      SplitUnique(rest, sep, sp[1..]);
      assert parts == [parts[0]] + parts[1..] && sp == [sp[0]] + sp[1..];
    }
  }

  /** Two leftmost cuttings of the same string start with the same piece, and both or neither go on. */
  lemma FirstPieceEqual(s: string, sep: string, a: seq<string>, b: seq<string>)
    requires sep != "" && LeftmostCuts(s, sep, a) && LeftmostCuts(s, sep, b)
    requires |a[0]| == |b[0]|
    ensures a[0] == b[0] && (|a| == 1 <==> |b| == 1)
  {
    assert a[0] == s[..|a[0]|] by {
      if |a| > 1 { assert s == a[0] + (sep + Join(sep, a[1..])); }
    }
    assert b[0] == s[..|b[0]|] by {
      if |b| > 1 { assert s == b[0] + (sep + Join(sep, b[1..])); }
    }
    if |a| > 1 { assert s == a[0] + sep + Join(sep, a[1..]); }
    if |b| > 1 { assert s == b[0] + sep + Join(sep, b[1..]); }
  }

  /** The first piece of a leftmost cutting reaches the first match of `sep` in `s`. */
  lemma FirstPieceNotShorter(s: string, sep: string, a: seq<string>, b: seq<string>)
    requires sep != "" && LeftmostCuts(s, sep, a) && LeftmostCuts(s, sep, b)
    ensures |a[0]| >= |b[0]|
  {
    var n := |a[0]|;
    if |a| > 1 {
      assert s == a[0] + sep + Join(sep, a[1..]);
      assert s[n..n + |sep|] == sep;
      MatchEndsFirstPiece(s, sep, b, n);
    } else if |b| > 1 {
      assert s == b[0] + sep + Join(sep, b[1..]);
    }
  }

  /** No match of `sep` starts inside the first piece of a leftmost cutting. */
  lemma MatchEndsFirstPiece(s: string, sep: string, b: seq<string>, n: nat)
    requires sep != "" && LeftmostCuts(s, sep, b)
    ensures MatchAt(s, sep, n) ==> |b[0]| <= n
  {
    if n < |b[0]| && n + |sep| <= |s| {
      if |b| == 1 {
        assert !MatchAt(b[0], sep, n);
      } else {
        var u := b[0] + sep;
        assert s == u + Join(sep, b[1..]);
        assert s[n..n + |sep|] == u[n..n + |sep|];
        assert !MatchAt(u, sep, n);
      }
    }
  }

  /** Python `s.replace(pat, rep)` for a non-empty `pat`: every leftmost, non-overlapping match. */
  function Replace(s: string, pat: string, rep: string): string
    requires pat != ""
    decreases |s|
  {
    if |s| < |pat| then s
    else if s[..|pat|] == pat then rep + Replace(s[|pat|..], pat, rep)
    else [s[0]] + Replace(s[1..], pat, rep)
  }

  /** `pat` occurs in `s` starting at index `i`. */
  predicate MatchAt(s: string, pat: string, i: int) {
    0 <= i && i + |pat| <= |s| && s[i..i + |pat|] == pat
  }

  /** `pat` occurs somewhere in `s`. */
  ghost predicate Occurs(s: string, pat: string) {
    exists i :: MatchAt(s, pat, i)
  }

  /** Number of occurrences of the character `c` in `s`. */
  function Count(s: string, c: char): nat
  {
    if s == [] then 0 else (if s[0] == c then 1 else 0) + Count(s[1..], c)
  }

  /** Occurrences add up over a concatenation. */
  lemma {:induction false} CountAppend(a: string, b: string, c: char)
    ensures Count(a + b, c) == Count(a, c) + Count(b, c)
    decreases |a|
  {
    if a == [] {
      assert a + b == b;
    } else {
      assert (a + b)[1..] == a[1..] + b;
      CountAppend(a[1..], b, c);
    }
  }

  /** `s.replace(pat, rep) == rep.join(s.split(pat))`: the two cut the string at the same places. */
  lemma {:induction false} ReplaceIsJoinOfSplit(s: string, pat: string, rep: string)
    requires pat != ""
    ensures Replace(s, pat, rep) == Join(rep, Split(s, pat))
    decreases |s|
  {
    if |s| < |pat| {
    } else if s[..|pat|] == pat {
      ReplaceIsJoinOfSplit(s[|pat|..], pat, rep);
    } else {
      ReplaceIsJoinOfSplit(s[1..], pat, rep);
      JoinGrowFirst(rep, s[0], Split(s[1..], pat));
    }
  }

  /** Putting `x` in front of the first piece puts it in front of the joined string. */
  lemma JoinGrowFirst(sep: string, x: char, parts: seq<string>)
    requires |parts| >= 1
    ensures Join(sep, [[x] + parts[0]] + parts[1..]) == [x] + Join(sep, parts)
  {
    var grown := [[x] + parts[0]] + parts[1..];
    assert grown[1..] == parts[1..];
  }

  /** A match in the tail of `s` is a match in `s` one position later. */
  lemma MatchAtShift(s: string, pat: string, i: nat)
    requires s != []
    ensures MatchAt(s[1..], pat, i) <==> MatchAt(s, pat, i + 1)
  {
    if i + |pat| <= |s[1..]| {
      assert s[1..][i..i + |pat|] == s[i + 1..i + 1 + |pat|];
    }
  }

  /** A prefix in which no match of `pat` starts is copied through by `replace`. */
  lemma {:induction false} ReplaceSkipsPrefix(u: string, rest: string, pat: string, rep: string)
    requires pat != ""
    requires forall i :: 0 <= i < |u| ==> !MatchAt(u + rest, pat, i)
    ensures Replace(u + rest, pat, rep) == u + Replace(rest, pat, rep)
    decreases |u|
  {
    var s := u + rest;
    if u == [] {
      assert s == rest;
    } else {
      assert !MatchAt(s, pat, 0);
      assert s[1..] == u[1..] + rest;
      forall i | 0 <= i < |u[1..]|
        ensures !MatchAt(u[1..] + rest, pat, i)
      {
        MatchAtShift(s, pat, i);
      }
      ReplaceSkipsPrefix(u[1..], rest, pat, rep);
      assert [u[0]] + u[1..] == u;
    }
  }

  /** A string in which `pat` does not occur comes back from `replace` unchanged. */
  lemma {:induction false} ReplaceAbsent(s: string, pat: string, rep: string)
    requires pat != ""
    requires !Occurs(s, pat)
    ensures Replace(s, pat, rep) == s
    decreases |s|
  {
    if |s| >= |pat| {
      assert !MatchAt(s, pat, 0);
      forall i: nat
        ensures !MatchAt(s[1..], pat, i)
      {
        MatchAtShift(s, pat, i);
      }
      ReplaceAbsent(s[1..], pat, rep);
    }
  }

  /** `replace` never introduces a character that neither the input nor the replacement holds. */
  lemma {:induction false} ReplaceKeepsOut(s: string, pat: string, rep: string, c: char)
    requires pat != ""
    requires c !in s && c !in rep
    ensures c !in Replace(s, pat, rep)
    decreases |s|
  {
    if |s| < |pat| {
    } else if s[..|pat|] == pat {
      ReplaceKeepsOut(s[|pat|..], pat, rep, c);
    } else {
      ReplaceKeepsOut(s[1..], pat, rep, c);
    }
  }

  /** Replacing one character by another rewrites exactly those positions and keeps the length. */
  lemma {:induction false} ReplaceCharPointwise(s: string, c: char, d: char)
    ensures |Replace(s, [c], [d])| == |s|
    ensures forall i :: 0 <= i < |s| ==>
              Replace(s, [c], [d])[i] == (if s[i] == c then d else s[i])
    decreases |s|
  {
    if |s| >= 1 {
      ReplaceCharPointwise(s[1..], c, d);
      var r := Replace(s, [c], [d]);
      assert r == [if s[0] == c then d else s[0]] + Replace(s[1..], [c], [d]);
    }
  }

  /** Splitting on a character yields one more piece than there are occurrences of it. */
  lemma {:induction false} SplitCharCount(s: string, c: char)
    ensures |Split(s, [c])| == Count(s, c) + 1
    decreases |s|
  {
    if |s| >= 1 {
      SplitCharCount(s[1..], c);
      assert s[..1] == [s[0]];
    }
  }

  /** No piece of a split on `c` contains `c`. */
  lemma {:induction false} SplitCharPieces(s: string, c: char)
    ensures forall k :: 0 <= k < |Split(s, [c])| ==> c !in Split(s, [c])[k]
    decreases |s|
  {
    if |s| >= 1 {
      SplitCharPieces(s[1..], c);
      assert s[..1] == [s[0]];
    }
  }

  /** A string without `c` is its own single piece. */
  lemma {:induction false} SplitCharNone(a: string, c: char)
    requires c !in a
    ensures Split(a, [c]) == [a]
    decreases |a|
  {
    if |a| >= 1 {
      assert a[..1] == [a[0]];
      SplitCharNone(a[1..], c);
      assert [a[0]] + a[1..] == a;
    }
  }

  /** The first cut of a split on `c` is at the first `c`. */
  lemma {:induction false} SplitCharCons(a: string, c: char, b: string)
    requires c !in a
    ensures Split(a + [c] + b, [c]) == [a] + Split(b, [c])
    decreases |a|
  {
    var s := a + [c] + b;
    if a == [] {
      assert s[..1] == [c];
      assert s[1..] == b;
    } else {
      assert s[..1] == [a[0]];
      assert s[1..] == a[1..] + [c] + b;
      SplitCharCons(a[1..], c, b);
      assert [a[0]] + a[1..] == a;
    }
  }

  /** Splitting at a one-character separator cuts at every occurrence: the pieces on either side of one are split apart. */
  lemma {:induction false} SplitCharAppend(a: string, c: char, b: string)
    ensures Split(a + [c] + b, [c]) == Split(a, [c]) + Split(b, [c])
    decreases |a|
  {
    if c !in a {
      SplitCharNone(a, c);
      SplitCharCons(a, c, b);
    } else {
      var x, y := CutAtFirst(a, c);
      SplitCharAppend(y, c, b);
      SplitCharAppendStep(a, c, b, x, y);
    }
  }

  /** `a` cut at its first `c`. */
  lemma {:induction false} CutAtFirst(a: string, c: char) returns (x: string, y: string)
    requires c in a
    ensures a == x + [c] + y && c !in x
    decreases |a|
  {
    if a[0] == c {
      x, y := [], a[1..];
    } else {
      var x', y' := CutAtFirst(a[1..], c);
      x, y := [a[0]] + x', y';
      assert a == [a[0]] + a[1..];
    }
  }

  /** One step of `SplitCharAppend`: the piece before the first `c` of `a` is the first piece on both sides. */
  lemma SplitCharAppendStep(a: string, c: char, b: string, x: string, y: string)
    requires a == x + [c] + y && c !in x
    requires Split(y + [c] + b, [c]) == Split(y, [c]) + Split(b, [c])
    ensures Split(a + [c] + b, [c]) == Split(a, [c]) + Split(b, [c])
  {
    assert a + [c] + b == x + [c] + (y + [c] + b);
    SplitCharCons(x, c, y + [c] + b);
    SplitCharCons(x, c, y);
    ConsPieceCut(Split(a + [c] + b, [c]), Split(a, [c]), x, Split(y, [c]), Split(b, [c]));
  }

  lemma ConsPieceCut(S: seq<string>, SA: seq<string>, x: string, A: seq<string>, B: seq<string>)
    requires S == [x] + (A + B) && SA == [x] + A
    ensures S == SA + B
  {
    assert [x] + (A + B) == ([x] + A) + B;
  }

  /** For a one-character separator that no part contains, `split` inverts `join`. */
  lemma {:induction false} SplitJoinChar(parts: seq<string>, c: char)
    requires |parts| >= 1
    requires forall k :: 0 <= k < |parts| ==> c !in parts[k]
    ensures Split(Join([c], parts), [c]) == parts
    decreases |parts|
  {
    if |parts| == 1 {
      SplitCharNone(parts[0], c);
    } else {
      SplitJoinChar(parts[1..], c);
      SplitCharCons(parts[0], c, Join([c], parts[1..]));
      assert [parts[0]] + parts[1..] == parts;
    }
  }

  /** Joining `p` onto a longer list puts `p` and the separator in front. */
  lemma JoinCons(sep: string, p: string, parts: seq<string>)
    requires |parts| >= 1
    ensures Join(sep, [p] + parts) == p + sep + Join(sep, parts)
  {
    assert ([p] + parts)[1..] == parts;
  }
}
