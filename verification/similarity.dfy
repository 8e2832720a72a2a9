/**
  The similarity score of the retriever: a plain dot product of two
  embedding vectors, summed left to right over `zip(a, b)`.  `zip` stops at
  the shorter vector, so vectors of different dimension are compared on
  their common prefix and no error is raised.  Scores are exact reals here.
 */
module Similarity {

  type Vector = seq<real>

  function Min(x: int, y: int): int {
    if x <= y then x else y
  }

  /** `sum(a * b for a, b in zip(v1, v2))` restricted to the first `n` pairs, added in order. */
  function ZipSum(v1: Vector, v2: Vector, n: nat): (r: real)
    requires n <= |v1| && n <= |v2|
    ensures (forall k :: 0 <= k < n ==> v1[k] == 0.0) ==> r == 0.0
    ensures (forall k :: 0 <= k < n ==> v2[k] == 0.0) ==> r == 0.0
  {
    if n == 0 then 0.0 else ZipSum(v1, v2, n - 1) + v1[n - 1] * v2[n - 1]
  }

  /**
    `dot_product(vector1, vector2)`.  An empty or all-zero vector scores
    0.0 against every vector, whatever its length.
   */
  function Dot(v1: Vector, v2: Vector): (score: real)
    ensures (forall k :: 0 <= k < |v1| ==> v1[k] == 0.0) ==> score == 0.0
    ensures (forall k :: 0 <= k < |v2| ==> v2[k] == 0.0) ==> score == 0.0
  {
    ZipSum(v1, v2, Min(|v1|, |v2|))
  }

  lemma {:induction false} ZipSumSymmetric(v1: Vector, v2: Vector, n: nat)
    requires n <= |v1| && n <= |v2|
    ensures ZipSum(v1, v2, n) == ZipSum(v2, v1, n)
  {
    if n > 0 {
      ZipSumSymmetric(v1, v2, n - 1);
    }
  }

  /** The score does not depend on which vector is the query. */
  lemma {:induction false} DotSymmetric(v1: Vector, v2: Vector)
    ensures Dot(v1, v2) == Dot(v2, v1)
  {
    ZipSumSymmetric(v1, v2, Min(|v1|, |v2|));
  }

  /** `ZipSum` over `n` pairs reads only the first `n` entries of each vector. */
  lemma {:induction false} ZipSumPrefix(v1: Vector, v2: Vector, w1: Vector, w2: Vector, n: nat)
    requires n <= |v1| && n <= |v2| && n <= |w1| && n <= |w2|
    requires v1[..n] == w1[..n] && v2[..n] == w2[..n]
    ensures ZipSum(v1, v2, n) == ZipSum(w1, w2, n)
  {
    if n > 0 {
      assert v1[n - 1] == v1[..n][n - 1] && w1[n - 1] == w1[..n][n - 1];
      assert v2[n - 1] == v2[..n][n - 1] && w2[n - 1] == w2[..n][n - 1];
      assert v1[..n - 1] == v1[..n][..n - 1] && w1[..n - 1] == w1[..n][..n - 1];
      assert v2[..n - 1] == v2[..n][..n - 1] && w2[..n - 1] == w2[..n][..n - 1];
      ZipSumPrefix(v1, v2, w1, w2, n - 1);
    }
  }

  /**
    Vectors of unequal length are compared on their common prefix only: the
    surplus entries of the longer vector never contribute.
   */
  lemma {:induction false} DotTruncates(v1: Vector, v2: Vector)
    ensures var m := Min(|v1|, |v2|);
            Dot(v1, v2) == Dot(v1[..m], v2[..m])
  {
    var m := Min(|v1|, |v2|);
    assert v1[..m][..m] == v1[..m] && v2[..m][..m] == v2[..m];
    ZipSumPrefix(v1, v2, v1[..m], v2[..m], m);
  }

  /** Appending one coordinate to two equal-length vectors adds its product to the score. */
  lemma {:induction false} DotSnoc(v1: Vector, v2: Vector, x: real, y: real)
    requires |v1| == |v2|
    ensures Dot(v1 + [x], v2 + [y]) == Dot(v1, v2) + x * y
  {
    var n := |v1|;
    assert (v1 + [x])[..n] == v1[..n] && (v2 + [y])[..n] == v2[..n];
    ZipSumPrefix(v1 + [x], v2 + [y], v1, v2, n);
  }
}
