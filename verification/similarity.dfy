/**
 * `semantic_similarity`: the Jaccard index of the semantic token sets of two
 * titles, and the two thresholds the store applies to it.
 */
module Similarity {
  import opened Tokens

  /** A score strictly above this marks a probable duplicate (`threshold=0.75`). */
  const DuplicateThreshold: real := 0.75
  /** A score at or above this lets the caller reuse the duplicate without asking. */
  const AutoUseThreshold: real := 0.85

  function TokenSet(text: string): set<string> {
    set t | t in SemanticTokenize(text)
  }

  /** |A ∩ B| / |A ∪ B|, and 0 when both sets are empty. */
  function Jaccard(a: set<string>, b: set<string>): real {
    if |a + b| == 0 then 0.0 else (|a * b| as real) / (|a + b| as real)
  }

  function SemanticSimilarity(textA: string, textB: string): real {
    Jaccard(TokenSet(textA), TokenSet(textB))
  }

  lemma SubsetCardinality(x: set<string>, y: set<string>)
    requires x <= y
    ensures |x| <= |y|
    ensures |x| == |y| ==> x == y
  {
    assert y == x + (y - x);
    assert |y| == |x| + |y - x|;
    if |x| == |y| {
      assert |y - x| == 0;
      assert y - x == {};
    }
  }

  lemma DivisionBounds(x: nat, y: nat)
    requires x <= y && y > 0
    ensures 0.0 <= (x as real) / (y as real) <= 1.0
    ensures (x as real) / (y as real) == 1.0 <==> x == y
    ensures (x as real) / (y as real) == 0.0 <==> x == 0
  {
    var q := (x as real) / (y as real);
    assert q * (y as real) == x as real;
  }

  /** The index lies in [0, 1]. */
  lemma JaccardBounds(a: set<string>, b: set<string>)
    ensures 0.0 <= Jaccard(a, b) <= 1.0
  {
    SubsetCardinality(a * b, a + b);
    if |a + b| != 0 { DivisionBounds(|a * b|, |a + b|); }
  }

  /** The index is 1 exactly when the sets are equal and non-empty. */
  lemma JaccardOneIff(a: set<string>, b: set<string>)
    ensures Jaccard(a, b) == 1.0 <==> (a == b && a != {})
  {
    SubsetCardinality(a * b, a + b);
    if |a + b| != 0 { DivisionBounds(|a * b|, |a + b|); }
    if Jaccard(a, b) == 1.0 {
      assert a * b == a + b;
      assert a == b by {
        forall t | t in a ensures t in b { assert t in a + b; }
        forall t | t in b ensures t in a { assert t in a + b; }
      }
    }
    if a == b && a != {} {
      assert a * b == a && a + b == a;
      var t :| t in a;
      assert |a| != 0;
    }
  }

  /** The index is 0 exactly when the sets are disjoint. */
  lemma JaccardZeroIff(a: set<string>, b: set<string>)
    ensures Jaccard(a, b) == 0.0 <==> a * b == {}
  {
    SubsetCardinality(a * b, a + b);
    if |a + b| != 0 { DivisionBounds(|a * b|, |a + b|); }
    if a * b != {} {
      var t :| t in a * b;
      assert t in a + b;
      assert |a * b| != 0 && |a + b| != 0;
    }
  }

  /** The score lies in [0, 1]. */
  lemma SimilarityBounds(textA: string, textB: string)
    ensures 0.0 <= SemanticSimilarity(textA, textB) <= 1.0
  {
    JaccardBounds(TokenSet(textA), TokenSet(textB));
  }

  /** The score does not depend on the order of the titles. */
  lemma SimilaritySymmetric(textA: string, textB: string)
    ensures SemanticSimilarity(textA, textB) == SemanticSimilarity(textB, textA)
  {
    var a, b := TokenSet(textA), TokenSet(textB);
    assert a + b == b + a && a * b == b * a;
  }

  /** Two titles without semantic tokens score 0. */
  lemma SimilarityOfEmpty(textA: string, textB: string)
    requires TokenSet(textA) == {} && TokenSet(textB) == {}
    ensures SemanticSimilarity(textA, textB) == 0.0
  {
  }

  /** The score is 1 exactly when both titles have the same non-empty token set. */
  lemma SimilarityOneIff(textA: string, textB: string)
    ensures SemanticSimilarity(textA, textB) == 1.0 <==> (TokenSet(textA) == TokenSet(textB) && TokenSet(textA) != {})
  {
    JaccardOneIff(TokenSet(textA), TokenSet(textB));
  }

  /** The score is 0 exactly when the token sets share nothing. */
  lemma SimilarityZeroIff(textA: string, textB: string)
    ensures SemanticSimilarity(textA, textB) == 0.0 <==> TokenSet(textA) * TokenSet(textB) == {}
  {
    JaccardZeroIff(TokenSet(textA), TokenSet(textB));
  }

  /** A title compared with itself scores 1 unless it has no semantic token. */
  lemma SimilarityReflexive(text: string)
    ensures SemanticSimilarity(text, text) == if TokenSet(text) == {} then 0.0 else 1.0
  {
    JaccardOneIff(TokenSet(text), TokenSet(text));
  }
}
