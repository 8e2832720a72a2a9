/**
  `split_content`: cut a document into sentences at every `". "`, then pack
  sentences greedily into chunks.  A sentence joins the current chunk while
  the chunk's length plus the sentence's length is at most `chunk_size`;
  otherwise the current chunk is emitted and the sentence starts the next
  one.  Every sentence is added back with its `". "`, and every emitted
  chunk is `strip()`ped.

  `PackFrom` is the packing as a pure function over the raw (unstripped)
  chunks; `SplitContent` is the loop of the source, proved to compute it.
 */
module Chunker {
  import opened PyStrings

  /** `content.split(". ")`. */
  function Sentences(content: string): seq<string> {
    Split(content, ". ")
  }

  /** The concatenation of `s + ". "` over a list of sentences. */
  function Terminated(sentences: seq<string>): string {
    if sentences == [] then "" else sentences[0] + ". " + Terminated(sentences[1..])
  }

  /**
    The raw chunks the loop emits when its current chunk is `current` and
    `rest` are the sentences still to come (the final `if current_chunk`
    included).
   */
  function PackFrom(current: string, rest: seq<string>, chunkSize: int): (raw: seq<string>)
    ensures |raw| <= |rest| + 1
    ensures raw != [] <==> current != "" || rest != []
    decreases |rest|
  {
    if rest == [] then (if current == "" then [] else [current])
    else if |current| + |rest[0]| <= chunkSize then PackFrom(current + rest[0] + ". ", rest[1..], chunkSize)
    else [current] + PackFrom(rest[0] + ". ", rest[1..], chunkSize)
  }

  /** The chunks of `split_content` before `strip()`. */
  function RawChunks(content: string, chunkSize: int): seq<string> {
    PackFrom("", Sentences(content), chunkSize)
  }

  function StripAll(raw: seq<string>): (r: seq<string>)
    ensures |r| == |raw|
    ensures forall j :: 0 <= j < |raw| ==> r[j] == Strip(raw[j])
  {
    seq(|raw|, j requires 0 <= j < |raw| => Strip(raw[j]))
  }

  /** `c` ends with the `". "` every sentence is put back with. */
  predicate EndsWithSeparator(c: string) {
    |c| >= 2 && c[|c| - 2] == '.' && c[|c| - 1] == ' '
  }

  /** `c` is exactly one of the sentences, with its `". "`. */
  ghost predicate OneSentence(c: string, sentences: seq<string>) {
    exists k :: 0 <= k < |sentences| && c == sentences[k] + ". "
  }

  /** A raw chunk that is within the size bound (plus the trailing `". "`) or a single sentence. */
  ghost predicate WellFormed(c: string, sentences: seq<string>, chunkSize: int) {
    EndsWithSeparator(c) && (|c| <= chunkSize + 2 || OneSentence(c, sentences))
  }

  /** The joined sentences, each terminated again, are the document plus one `". "`. */
  lemma {:induction false} TerminatedIsJoin(sentences: seq<string>)
    requires |sentences| >= 1
    ensures Terminated(sentences) == Join(". ", sentences) + ". "
    decreases |sentences|
  {
    if |sentences| > 1 {
      TerminatedIsJoin(sentences[1..]);
    }
  }

  lemma {:induction false} PackFromConcat(current: string, rest: seq<string>, chunkSize: int)
    ensures Concat(PackFrom(current, rest, chunkSize)) == current + Terminated(rest)
    decreases |rest|
  {
    if rest == [] {
      assert current + "" == current;
    } else if |current| + |rest[0]| <= chunkSize {
      PackFromConcat(current + rest[0] + ". ", rest[1..], chunkSize);
    } else {
      PackFromConcat(rest[0] + ". ", rest[1..], chunkSize);
      assert ([current] + PackFrom(rest[0] + ". ", rest[1..], chunkSize))[1..]
             == PackFrom(rest[0] + ". ", rest[1..], chunkSize);
    }
  }

  /**
    Content preservation: the raw chunks, concatenated, are the document
    followed by one `". "`, so no text is lost or reordered.
   */
  lemma RawChunksConcat(content: string, chunkSize: int)
    ensures Concat(RawChunks(content, chunkSize)) == content + ". "
  {
    PackFromConcat("", Sentences(content), chunkSize);
    TerminatedIsJoin(Sentences(content));
    assert "" + Terminated(Sentences(content)) == Terminated(Sentences(content));
  }

  /**
    `raw` cuts the list of sentences at the positions `cuts`: chunk `j` is
    sentences `cuts[j]` up to (not including) `cuts[j + 1]`, each followed
    by its `". "`, and the last cut is the end of the list.
   */
  ghost predicate SentenceCuts(raw: seq<string>, sentences: seq<string>, cuts: seq<nat>) {
    && |cuts| == |raw| + 1
    && cuts[|raw|] == |sentences|
    && forall j {:trigger raw[j]} :: 0 <= j < |raw| ==>
         cuts[j] <= cuts[j + 1] <= |sentences| && raw[j] == Terminated(sentences[cuts[j]..cuts[j + 1]])
  }

  /** Terminating one more sentence appends it and its `". "`. */
  lemma {:induction false} TerminatedSnoc(sentences: seq<string>, x: string)
    ensures Terminated(sentences + [x]) == Terminated(sentences) + x + ". "
    decreases |sentences|
  {
    if sentences == [] {
      assert sentences + [x] == [x];
    } else {
      assert (sentences + [x])[0] == sentences[0];
      assert (sentences + [x])[1..] == sentences[1..] + [x];
      TerminatedSnoc(sentences[1..], x);
    }
  }

  /**
    The packing started with the sentences `a` up to `i` in the current
    chunk cuts the sentences from `a` on into consecutive runs, one per
    chunk; a run is empty only for a first chunk that starts empty.
   */
  lemma {:induction false} PackFromCuts(sentences: seq<string>, a: nat, i: nat, chunkSize: int)
    returns (cuts: seq<nat>)
    requires a <= i <= |sentences|
    ensures var raw := PackFrom(Terminated(sentences[a..i]), sentences[i..], chunkSize);
            && SentenceCuts(raw, sentences, cuts)
            && cuts[0] == a
            && forall j :: 0 <= j < |raw| && (0 < j || a < i) ==> cuts[j] < cuts[j + 1]
    decreases |sentences| - i
  {
    var current := Terminated(sentences[a..i]);
    if i == |sentences| {
      assert sentences[i..] == [];
      if a == i {
        assert sentences[a..i] == [];
        cuts := [a];
      } else {
        assert current == sentences[a..i][0] + ". " + Terminated(sentences[a..i][1..]);
        cuts := [a, i];
      }
    } else {
      var rest := sentences[i..];
      assert rest[0] == sentences[i] && rest[1..] == sentences[i + 1..];
      PackFromStep(current, rest, chunkSize);
      if |current| + |sentences[i]| <= chunkSize {
        assert sentences[a..i + 1] == sentences[a..i] + [sentences[i]];
        TerminatedSnoc(sentences[a..i], sentences[i]);
        cuts := PackFromCuts(sentences, a, i + 1, chunkSize);
      } else {
        var next := Terminated(sentences[i..i + 1]);
        assert sentences[i..i + 1] == [sentences[i]];
        TerminatedOne(sentences[i]);
        var tail := PackFromCuts(sentences, i, i + 1, chunkSize);
        cuts := CutsCons(sentences, a, i, PackFrom(next, sentences[i + 1..], chunkSize), tail);
      }
    }
  }

  lemma TerminatedOne(x: string)
    ensures Terminated([x]) == x + ". "
  {
    assert [x][1..] == [];
  }

  /** A chunk holding sentences `a` up to `i`, in front of runs that start at `i`. */
  lemma CutsCons(sentences: seq<string>, a: nat, i: nat, rawTail: seq<string>, tail: seq<nat>)
    returns (cuts: seq<nat>)
    requires a <= i <= |sentences|
    requires SentenceCuts(rawTail, sentences, tail) && tail[0] == i
    requires forall j :: 0 <= j < |rawTail| ==> tail[j] < tail[j + 1]
    ensures var raw := [Terminated(sentences[a..i])] + rawTail;
            && SentenceCuts(raw, sentences, cuts)
            && cuts[0] == a
            && forall j :: 0 <= j < |raw| && (0 < j || a < i) ==> cuts[j] < cuts[j + 1]
  {
    var raw := [Terminated(sentences[a..i])] + rawTail;
    cuts := [a] + tail;
    assert |cuts| == |raw| + 1 && cuts[|raw|] == tail[|rawTail|];
    forall j {:trigger raw[j]} | 0 <= j < |raw|
      ensures cuts[j] <= cuts[j + 1] <= |sentences| && raw[j] == Terminated(sentences[cuts[j]..cuts[j + 1]])
    {
      CutsConsAt(sentences, a, i, raw, rawTail, cuts, tail, j);
    }
    assert SentenceCuts(raw, sentences, cuts) && cuts[0] == a && cuts[1] == i;
    forall j | 0 < j < |raw|
      ensures cuts[j] < cuts[j + 1]
    {
      assert cuts[j] == tail[j - 1] && cuts[j + 1] == tail[j];
    }
  }

  /** Proof helper for `CutsCons`: run `j` of the extended cutting. */
  lemma CutsConsAt(sentences: seq<string>, a: nat, i: nat, raw: seq<string>, rawTail: seq<string>,
                   cuts: seq<nat>, tail: seq<nat>, j: nat)
    requires a <= i <= |sentences|
    requires SentenceCuts(rawTail, sentences, tail) && tail[0] == i
    requires raw == [Terminated(sentences[a..i])] + rawTail && cuts == [a] + tail
    requires j < |raw|
    ensures cuts[j] <= cuts[j + 1] <= |sentences| && raw[j] == Terminated(sentences[cuts[j]..cuts[j + 1]])
  {
    if j == 0 {
      assert raw[0] == Terminated(sentences[a..i]) && cuts[0] == a && cuts[1] == i;
    } else {
      var k := j - 1;
      assert raw[j] == rawTail[k] && cuts[j] == tail[k] && cuts[j + 1] == tail[k + 1];
    }
  }

  /**
    Chunk boundaries are sentence boundaries: the raw chunks cut the list of
    sentences into consecutive runs from the first sentence to the last,
    chunk `j` being run `j` with every sentence given back its `". "`, so no
    sentence is split across two chunks.  Every run after the first holds at
    least one sentence.
   */
  lemma RawChunksAtSentences(content: string, chunkSize: int)
    ensures exists cuts :: SentenceCuts(RawChunks(content, chunkSize), Sentences(content), cuts)
              && cuts[0] == 0
              && forall j :: 1 <= j < |RawChunks(content, chunkSize)| ==> cuts[j] < cuts[j + 1]
  {
    var sentences := Sentences(content);
    assert sentences[0..0] == [] && sentences[0..] == sentences;
    var cuts := PackFromCuts(sentences, 0, 0, chunkSize);
  }

  lemma {:induction false} PackFromShape(current: string, rest: seq<string>, chunkSize: int,
                                         sentences: seq<string>)
    requires current == "" || WellFormed(current, sentences, chunkSize)
    requires forall k :: 0 <= k < |rest| ==> rest[k] in sentences
    ensures var p := PackFrom(current, rest, chunkSize);
            && |p| <= |rest| + 1
            && (forall j :: 0 <= j < |p| ==> WellFormed(p[j], sentences, chunkSize) || (j == 0 && p[j] == ""))
            && (|p| > 0 && p[0] == "" <==> current == "" && rest != [] && |rest[0]| > chunkSize)
            && (current != "" || rest != [] ==> |p| >= 1 && WellFormed(p[|p| - 1], sentences, chunkSize))
    decreases |rest|
  {
    if rest != [] {
      var next := rest[0] + ". ";
      assert rest[0] in sentences;
      var k :| 0 <= k < |sentences| && sentences[k] == rest[0];
      assert OneSentence(next, sentences);
      assert forall k :: 0 <= k < |rest[1..]| ==> rest[1..][k] == rest[k + 1];
      if |current| + |rest[0]| <= chunkSize {
        var grown := current + rest[0] + ". ";
        assert grown[|grown| - 2..] == ". ";
        PackFromShape(grown, rest[1..], chunkSize, sentences);
      } else {
        PackFromShape(next, rest[1..], chunkSize, sentences);
        var tail := PackFrom(next, rest[1..], chunkSize);
        assert forall j :: 1 <= j < |tail| + 1 ==> ([current] + tail)[j] == tail[j - 1];
      }
    }
  }

  /**
    Every raw chunk ends with `". "` and is either at most `chunk_size + 2`
    long or one single sentence; the only exception is an empty first chunk,
    which appears exactly when the first sentence is longer than
    `chunk_size`.  There is at most one chunk more than there are sentences,
    and the last chunk is never the empty one.
   */
  lemma RawChunksShape(content: string, chunkSize: int)
    ensures var raw := RawChunks(content, chunkSize);
            var sentences := Sentences(content);
            && 1 <= |raw| <= |sentences| + 1
            && (forall j :: 0 <= j < |raw| ==> WellFormed(raw[j], sentences, chunkSize) || (j == 0 && raw[j] == ""))
            && (raw[0] == "" <==> |sentences[0]| > chunkSize)
            && WellFormed(raw[|raw| - 1], sentences, chunkSize)
  {
    var sentences := Sentences(content);
    assert forall k :: 0 <= k < |sentences| ==> sentences[k] in sentences;
    PackFromShape("", sentences, chunkSize, sentences);
  }

  lemma {:induction false} PackFromSmall(current: string, rest: seq<string>, chunkSize: int)
    requires rest != []
    requires |current| + |Join(". ", rest)| <= chunkSize
    ensures PackFrom(current, rest, chunkSize) == [current + Terminated(rest)]
    decreases |rest|
  {
    var grown := current + rest[0] + ". ";
    assert Terminated(rest) == rest[0] + ". " + Terminated(rest[1..]);
    if |rest| == 1 {
      assert Join(". ", rest) == rest[0];
      assert PackFrom(current, rest, chunkSize) == PackFrom(grown, [], chunkSize);
      assert grown == current + Terminated(rest);
    } else {
      JoinCons(". ", rest[0], rest[1..]);
      assert [rest[0]] + rest[1..] == rest;
      assert PackFrom(current, rest, chunkSize) == PackFrom(grown, rest[1..], chunkSize);
      PackFromSmall(grown, rest[1..], chunkSize);
      assert grown + Terminated(rest[1..]) == current + Terminated(rest);
    }
  }

  /** A document no longer than `chunk_size` is one raw chunk: the document plus `". "`. */
  lemma RawChunksSmall(content: string, chunkSize: int)
    requires |content| <= chunkSize
    ensures RawChunks(content, chunkSize) == [content + ". "]
  {
    var sentences := Sentences(content);
    assert |"" + Join(". ", sentences)| <= chunkSize;
    PackFromSmall("", sentences, chunkSize);
    TerminatedIsJoin(sentences);
    assert "" + Terminated(sentences) == content + ". ";
  }

  /** A well-formed raw chunk still holds its `'.'` after `strip()`. */
  lemma StripWellFormed(c: string)
    requires EndsWithSeparator(c)
    ensures Strip(c) != ""
  {
    assert !IsSpace(c[|c| - 2]);
  }

  /** Proof helper for `ChunksCount`: the part of `RawChunksShape` it needs, about the last raw chunk. */
  lemma RawChunksEnd(content: string, chunkSize: int)
    ensures var raw := RawChunks(content, chunkSize);
            && 1 <= |raw| <= |Sentences(content)| + 1
            && EndsWithSeparator(raw[|raw| - 1])
  {
    RawChunksShape(content, chunkSize);
  }

  /** At least one chunk, at most one more than there are sentences, and the last one non-empty. */
  lemma ChunksCount(content: string, chunkSize: int)
    ensures var chunks := StripAll(RawChunks(content, chunkSize));
            && 1 <= |chunks| <= |Sentences(content)| + 1
            && chunks[|chunks| - 1] != ""
  {
    var raw := RawChunks(content, chunkSize);
    RawChunksEnd(content, chunkSize);
    StripWellFormed(raw[|raw| - 1]);
  }

  /**
    An empty chunk can only be the first one, and it is there exactly when
    the first sentence is longer than `chunk_size`.
   */
  lemma ChunksEmptyOnlyFirst(content: string, chunkSize: int)
    ensures var chunks := StripAll(RawChunks(content, chunkSize));
            && (forall j :: 1 <= j < |chunks| ==> chunks[j] != "")
            && (|chunks| > 0 && chunks[0] == "" <==> |Sentences(content)[0]| > chunkSize)
  {
    var sentences := Sentences(content);
    var raw := RawChunks(content, chunkSize);
    var chunks := StripAll(raw);
    RawChunksShape(content, chunkSize);
    forall j | 1 <= j < |chunks|
      ensures chunks[j] != ""
    {
      StripWellFormed(raw[j]);
    }
    if raw[0] != "" {
      StripWellFormed(raw[0]);
    } else {
      assert AllSpace(raw[0]);
    }
  }

  /** Proof helper for `SplitContent`: `ChunksCount` and `ChunksEmptyOnlyFirst` restated for the list the method returns. */
  lemma ChunksNonEmpty(content: string, chunkSize: int, chunks: seq<string>)
    requires chunks == StripAll(RawChunks(content, chunkSize))
    ensures 1 <= |chunks| <= |Sentences(content)| + 1
    ensures forall j :: 1 <= j < |chunks| ==> chunks[j] != ""
    ensures chunks[0] == "" <==> |Sentences(content)[0]| > chunkSize
  {
    ChunksCount(content, chunkSize);
    ChunksEmptyOnlyFirst(content, chunkSize);
  }

  /** Proof helper for `SplitContent`: `RawChunksSmall` restated for the stripped list the method returns. */
  lemma ChunksSmall(content: string, chunkSize: int, chunks: seq<string>)
    requires chunks == StripAll(RawChunks(content, chunkSize))
    requires |content| <= chunkSize
    ensures chunks == [Strip(content + ". ")]
  {
    RawChunksSmall(content, chunkSize);
  }

  /** One step of the packing: the sentence either joins the current chunk or flushes it. */
  lemma PackFromStep(current: string, rest: seq<string>, chunkSize: int)
    requires rest != []
    ensures |current| + |rest[0]| <= chunkSize ==>
              PackFrom(current, rest, chunkSize) == PackFrom(current + rest[0] + ". ", rest[1..], chunkSize)
    ensures |current| + |rest[0]| > chunkSize ==>
              PackFrom(current, rest, chunkSize) == [current] + PackFrom(rest[0] + ". ", rest[1..], chunkSize)
  {
  }

  /** The loop invariant of `PackChunks` across a sentence that joins the current chunk. */
  lemma PackJoinStep(raw: seq<string>, current: string, rest: seq<string>, chunkSize: int, total: seq<string>)
    requires rest != [] && |current| + |rest[0]| <= chunkSize
    requires raw + PackFrom(current, rest, chunkSize) == total
    ensures raw + PackFrom(current + rest[0] + ". ", rest[1..], chunkSize) == total
  {
    PackFromStep(current, rest, chunkSize);
  }

  /** The loop invariant of `PackChunks` across a sentence that flushes the current chunk. */
  lemma PackFlushStep(raw: seq<string>, current: string, rest: seq<string>, chunkSize: int, total: seq<string>)
    requires rest != [] && |current| + |rest[0]| > chunkSize
    requires raw + PackFrom(current, rest, chunkSize) == total
    ensures (raw + [current]) + PackFrom(rest[0] + ". ", rest[1..], chunkSize) == total
  {
    PackFromStep(current, rest, chunkSize);
    var after := PackFrom(rest[0] + ". ", rest[1..], chunkSize);
    assert (raw + [current]) + after == raw + ([current] + after);
  }

  lemma StripAllSnoc(raw: seq<string>, c: string)
    ensures StripAll(raw + [c]) == StripAll(raw) + [Strip(c)]
  {
    assert forall j :: 0 <= j < |raw| ==> (raw + [c])[j] == raw[j];
  }

  /**
    The loop of `split_content` over the sentences, with the final flush of
    the current chunk: it emits the stripped chunks of the greedy packing.
   */
  method PackChunks(sentences: seq<string>, chunkSize: int) returns (chunks: seq<string>)
    ensures chunks == StripAll(PackFrom("", sentences, chunkSize))
  {
    ghost var total := PackFrom("", sentences, chunkSize);
    chunks := [];
    var current := "";
    ghost var raw: seq<string> := [];
    var i := 0;
    assert sentences[i..] == sentences;
    while i < |sentences|
      invariant 0 <= i <= |sentences|
      invariant raw + PackFrom(current, sentences[i..], chunkSize) == total
      invariant chunks == StripAll(raw)
    {
      var sentence := sentences[i];
      assert sentences[i..][0] == sentence && sentences[i..][1..] == sentences[i + 1..];
      if |current| + |sentence| <= chunkSize {
        PackJoinStep(raw, current, sentences[i..], chunkSize, total);
        current := current + sentence + ". ";
      } else {
        PackFlushStep(raw, current, sentences[i..], chunkSize, total);
        StripAllSnoc(raw, current);
        chunks := chunks + [Strip(current)];
        raw := raw + [current];
        current := sentence + ". ";
      }
      i := i + 1;
    }
    if current != "" {
      StripAllSnoc(raw, current);
      chunks := chunks + [Strip(current)];
      raw := raw + [current];
    }
    assert raw == total;
  }

  /** `split_content(content, chunk_size)`. */
  method SplitContent(content: string, chunkSize: int) returns (chunks: seq<string>)
    ensures chunks == StripAll(RawChunks(content, chunkSize))
    ensures 1 <= |chunks| <= |Sentences(content)| + 1
    ensures forall j :: 1 <= j < |chunks| ==> chunks[j] != ""
    ensures chunks[0] == "" <==> |Sentences(content)[0]| > chunkSize
    ensures |content| <= chunkSize ==> chunks == [Strip(content + ". ")]
  {
    chunks := PackChunks(Split(content, ". "), chunkSize);
    ChunksNonEmpty(content, chunkSize, chunks);
    if |content| <= chunkSize {
      ChunksSmall(content, chunkSize, chunks);
    }
  }
}
