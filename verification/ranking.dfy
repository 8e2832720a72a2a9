/**
  `get_most_relevant_texts`: score every stored record against the query
  vector, sort the `(text, score)` pairs by score in descending order with
  Python's stable `list.sort(reverse=True)`, and keep the first `top_k`
  with Python slicing `scores[:top_k]`.

  The sort is modelled on corpus indices: `Before(sc, a, b)` says record `a`
  is listed before record `b`, i.e. it scores higher, or scores the same and
  comes first in the corpus (a stable sort keeps equal keys in input order,
  also when `reverse=True`).
 */
module Ranking {
  import opened Similarity

  /** One stored row: a chunk of text and its embedding. */
  datatype Record = Record(text: string, embedding: Vector)

  /** One `(text, score)` pair of the ranked list. */
  datatype Scored = Scored(text: string, score: real)

  /** The score of every record, in corpus order. */
  function Scores(q: Vector, corpus: seq<Record>): (sc: seq<real>)
    ensures |sc| == |corpus|
    ensures forall i :: 0 <= i < |corpus| ==> sc[i] == Dot(q, corpus[i].embedding)
  {
    seq(|corpus|, i requires 0 <= i < |corpus| => Dot(q, corpus[i].embedding))
  }

  /** The pair the loop at the top of `get_most_relevant_texts` builds for record `i`. */
  function Candidate(q: Vector, corpus: seq<Record>, i: nat): Scored
    requires i < |corpus|
  {
    Scored(corpus[i].text, Dot(q, corpus[i].embedding))
  }

  /** Record `a` precedes record `b` in the stable descending order. */
  predicate Before(sc: seq<real>, a: nat, b: nat)
    requires a < |sc| && b < |sc|
  {
    sc[a] > sc[b] || (sc[a] == sc[b] && a < b)
  }

  predicate InRange(order: seq<nat>, n: nat) {
    forall j :: 0 <= j < |order| ==> order[j] < n
  }

  /** `order` lists indices of `sc`, each before the next in the stable descending order. */
  predicate StablyRanked(sc: seq<real>, order: seq<nat>) {
    && InRange(order, |sc|)
    && forall j, k :: 0 <= j < k < |order| ==> Before(sc, order[j], order[k])
  }

  lemma StablyRankedTail(sc: seq<real>, order: seq<nat>)
    requires StablyRanked(sc, order) && |order| > 0
    ensures StablyRanked(sc, order[1..])
  {
    forall j, k | 0 <= j < k < |order[1..]|
      ensures Before(sc, order[1..][j], order[1..][k])
    {
      assert order[1..][j] == order[j + 1] && order[1..][k] == order[k + 1];
    }
  }

  /** Insertion of record `i` into a ranked list: it goes in front of the first record it precedes. */
  function Insert(sc: seq<real>, order: seq<nat>, i: nat): (r: seq<nat>)
    requires StablyRanked(sc, order) && i < |sc| && i !in order
    ensures |r| == |order| + 1
    ensures forall x :: x in r <==> x in order || x == i
    ensures StablyRanked(sc, r)
  {
    if |order| == 0 then [i]
    else if Before(sc, i, order[0]) then
      BeforeAll(sc, order, i);
      ConsRanked(sc, i, order);
      [i] + order
    else
      StablyRankedTail(sc, order);
      var rest := Insert(sc, order[1..], i);
      HeadBeforeInserted(sc, order, i, rest);
      ConsRanked(sc, order[0], rest);
      [order[0]] + rest
  }

  /** A record listed before every record of a ranked list can be put in front of it. */
  lemma ConsRanked(sc: seq<real>, h: nat, rest: seq<nat>)
    requires StablyRanked(sc, rest) && h < |sc|
    requires forall k :: 0 <= k < |rest| ==> Before(sc, h, rest[k])
    ensures StablyRanked(sc, [h] + rest)
  {
    var r := [h] + rest;
    assert forall k :: 0 < k < |r| ==> r[k] == rest[k - 1];
  }

  /** A record before the head of a ranked list is before all of it. */
  lemma BeforeAll(sc: seq<real>, order: seq<nat>, i: nat)
    requires StablyRanked(sc, order) && order != [] && i < |sc|
    requires Before(sc, i, order[0])
    ensures forall k :: 0 <= k < |order| ==> Before(sc, i, order[k])
  {
  }

  /** When `i` goes behind the head, the head still precedes everything inserted after it. */
  lemma HeadBeforeInserted(sc: seq<real>, order: seq<nat>, i: nat, rest: seq<nat>)
    requires StablyRanked(sc, order) && order != [] && i < |sc| && i !in order
    requires !Before(sc, i, order[0])
    requires InRange(rest, |sc|)
    requires forall x :: x in rest <==> x in order[1..] || x == i
    ensures forall k :: 0 <= k < |rest| ==> Before(sc, order[0], rest[k])
  {
    forall k | 0 <= k < |rest|
      ensures Before(sc, order[0], rest[k])
    {
      assert rest[k] in rest;
      if rest[k] != i {
        var m :| 0 <= m < |order[1..]| && order[1..][m] == rest[k];
        assert order[m + 1] == rest[k];
      }
    }
  }

  /** Python's stable `sort(key=score, reverse=True)` of the first `n` records, as indices. */
  function SortDesc(sc: seq<real>, n: nat): (r: seq<nat>)
    requires n <= |sc|
    ensures |r| == n
    ensures forall x :: x in r <==> 0 <= x < n
    ensures StablyRanked(sc, r)
  {
    if n == 0 then [] else Insert(sc, SortDesc(sc, n - 1), n - 1)
  }

  /** Scores never go up along the list. */
  predicate NonIncreasing(r: seq<Scored>) {
    forall j, k :: 0 <= j < k < |r| ==> r[j].score >= r[k].score
  }

  /** Length of the Python slice `s[:k]` of a list of length `n`. */
  function SliceLength(n: nat, k: int): nat {
    if k >= 0 then Min(k, n) else if n + k >= 0 then n + k else 0
  }

  /** The indices `get_most_relevant_texts` returns, in the order it returns them. */
  function TopIndices(q: Vector, corpus: seq<Record>, topK: int): (idx: seq<nat>)
    ensures |idx| == SliceLength(|corpus|, topK)
    ensures StablyRanked(Scores(q, corpus), idx)
  {
    var full := SortDesc(Scores(q, corpus), |corpus|);
    var idx := full[..SliceLength(|corpus|, topK)];
    assert forall j :: 0 <= j < |idx| ==> idx[j] == full[j];
    idx
  }

  /** `get_most_relevant_texts(query_embedding, stored_embeddings, top_k)`. */
  function Retrieve(q: Vector, corpus: seq<Record>, topK: int): (r: seq<Scored>)
    ensures |r| == SliceLength(|corpus|, topK)
    ensures 0 <= topK ==> |r| == Min(topK, |corpus|)
    ensures NonIncreasing(r)
  {
    var idx := TopIndices(q, corpus, topK);
    var sc := Scores(q, corpus);
    var r := seq(|idx|, j requires 0 <= j < |idx| => Candidate(q, corpus, idx[j]));
    assert forall j, k :: 0 <= j < k < |r| ==> Before(sc, idx[j], idx[k]);
    r
  }

  /**
    What `get_most_relevant_texts` returns: the pairs of distinct records,
    scores non-increasing, equal scores in corpus order, and every record
    kept precedes every record left out (it scores higher, or scores the same
    and comes earlier in the corpus); with `top_k` at least the corpus size
    every record is returned.
   */
  lemma {:induction false} RetrieveIsStableTopK(q: Vector, corpus: seq<Record>, topK: int)
    ensures var r := Retrieve(q, corpus, topK);
            var idx := TopIndices(q, corpus, topK);
            && |r| == |idx|
            && (forall j :: 0 <= j < |idx| ==> idx[j] < |corpus| && r[j] == Candidate(q, corpus, idx[j]))
            && (forall j, k :: 0 <= j < k < |idx| ==> idx[j] != idx[k])
            && (forall j, k :: 0 <= j < k < |r| && r[j].score == r[k].score ==> idx[j] < idx[k])
            && (forall i, j :: 0 <= i < |corpus| && i !in idx && 0 <= j < |idx| ==>
                  Before(Scores(q, corpus), idx[j], i))
            && (forall i, j :: 0 <= i < |corpus| && i !in idx && 0 <= j < |r| ==>
                  r[j].score >= Dot(q, corpus[i].embedding))
            && (topK >= |corpus| ==> forall i :: 0 <= i < |corpus| ==> i in idx)
  {
    var r := Retrieve(q, corpus, topK);
    var idx := TopIndices(q, corpus, topK);
    var sc := Scores(q, corpus);
    var full := SortDesc(sc, |corpus|);
    assert idx == full[..|idx|];
    forall j, k | 0 <= j < k < |idx|
      ensures idx[j] != idx[k]
    {
      assert Before(sc, idx[j], idx[k]);
    }
    forall i, j | 0 <= i < |corpus| && i !in idx && 0 <= j < |idx|
      ensures Before(sc, idx[j], i)
    {
      assert i in full;
      var p :| 0 <= p < |full| && full[p] == i;
      assert forall m :: 0 <= m < |idx| ==> full[m] in idx;
      assert Before(sc, full[j], full[p]);
    }
    if topK >= |corpus| {
      assert idx == full;
    }
  }

  lemma HeadIsMember(o: seq<nat>)
    ensures |o| > 0 ==> o[0] in o
  {
  }

  /** The head of a ranked list precedes every other member. */
  lemma HeadPrecedes(sc: seq<real>, o: seq<nat>, x: nat)
    requires StablyRanked(sc, o) && x in o
    ensures x == o[0] || Before(sc, o[0], x)
  {
    var p :| 0 <= p < |o| && o[p] == x;
    assert p == 0 || Before(sc, o[0], o[p]);
  }

  /**
    The stable descending order is unique: two ranked lists of the same
    records are equal.  So any list of all records that is sorted by
    non-increasing score with ties in corpus order is the one `SortDesc` builds.
   */
  lemma {:induction false} StablyRankedUnique(sc: seq<real>, o1: seq<nat>, o2: seq<nat>)
    requires StablyRanked(sc, o1) && StablyRanked(sc, o2)
    requires forall x :: x in o1 <==> x in o2
    ensures o1 == o2
    decreases |o1|
  {
    HeadIsMember(o2);
    if |o1| == 0 {
    } else {
      HeadIsMember(o1);
      HeadPrecedes(sc, o2, o1[0]);
      HeadPrecedes(sc, o1, o2[0]);
      StablyRankedTail(sc, o1);
      StablyRankedTail(sc, o2);
      forall x
        ensures x in o1[1..] <==> x in o2[1..]
      {
        if x in o1[1..] {
          var m :| 0 <= m < |o1[1..]| && o1[1..][m] == x;
          assert Before(sc, o1[0], o1[m + 1]);
          assert x in o2;
          var m2 :| 0 <= m2 < |o2| && o2[m2] == x;
          assert m2 != 0;
          assert o2[1..][m2 - 1] == x;
        }
        if x in o2[1..] {
          var m :| 0 <= m < |o2[1..]| && o2[1..][m] == x;
          assert Before(sc, o2[0], o2[m + 1]);
          assert x in o1;
          var m1 :| 0 <= m1 < |o1| && o1[m1] == x;
          assert m1 != 0;
          assert o1[1..][m1 - 1] == x;
        }
      }
      StablyRankedUnique(sc, o1[1..], o2[1..]);
      assert o1 == [o1[0]] + o1[1..] && o2 == [o2[0]] + o2[1..];
    }
  }

  /**
    Any arrangement of all corpus indices by non-increasing score with ties
    kept in corpus order is exactly the order `SortDesc` produces.
   */
  lemma SortDescIsTheStableOrder(sc: seq<real>, order: seq<nat>)
    requires StablyRanked(sc, order)
    requires forall x :: x in order <==> 0 <= x < |sc|
    ensures order == SortDesc(sc, |sc|)
  {
    StablyRankedUnique(sc, order, SortDesc(sc, |sc|));
  }
}
