/** The bigram similarity the catalog sync uses to compare a local course name
    with the names a remote search returns. */
module BigramSimilarity {
  import opened JsText

  // ------------------------------------------------------------------ toBigrams

  /** The two characters of s starting at i. */
  function Bigram(s: string, i: nat): string
    requires i + 2 <= |s|
  {
    s[i..i + 2]
  }

  /** The distinct two-character substrings of s. */
  ghost function Bigrams(s: string): set<string> {
    set i | 0 <= i < |s| - 1 :: Bigram(s, i)
  }

  /** toBigrams: the set of adjacent character pairs, built left to right. */
  method ToBigrams(value: string) returns (grams: set<string>)
    ensures grams == Bigrams(value)
  {
    grams := {};
    if value == [] {
      return;
    }
    var i := 0;
    while i < |value| - 1
      invariant 0 <= i <= |value| - 1
      invariant grams == set j | 0 <= j < i :: Bigram(value, j)
    {
      assert (set j | 0 <= j < i + 1 :: Bigram(value, j)) == grams + {Bigram(value, i)};
      grams := grams + {value[i..i + 2]};
      i := i + 1;
    }
  }

  /** A bigram of s is exactly a two-character string occurring in s. */
  lemma BigramsMember(s: string, g: string)
    ensures g in Bigrams(s) <==> |g| == 2 && Contains(s, g)
  {
    if g in Bigrams(s) {
      var i :| 0 <= i < |s| - 1 && Bigram(s, i) == g;
      ContainsAt(s, g, i);
    }
    if |g| == 2 && Contains(s, g) {
      var i := ContainsWitness(s, g);
      assert Bigram(s, i) in Bigrams(s);
    }
  }

  /** Only strings shorter than two characters have no bigram. */
  lemma BigramsEmpty(s: string)
    ensures Bigrams(s) == {} <==> |s| < 2
  {
    if |s| >= 2 {
      assert Bigram(s, 0) in Bigrams(s);
    }
  }

  /** A string contained in another has no bigram the other lacks. */
  lemma BigramsContained(a: string, b: string)
    requires Contains(a, b)
    ensures Bigrams(b) <= Bigrams(a)
  {
    var i := ContainsWitness(a, b);
    forall g | g in Bigrams(b)
      ensures g in Bigrams(a)
    {
      var j :| 0 <= j < |b| - 1 && Bigram(b, j) == g;
      assert b[j] == a[i + j] && b[j + 1] == a[i + j + 1];
      assert Bigram(a, i + j) == g;
    }
  }

  // ------------------------------------------------------------ similarityScore

  /** similarityScore: 0 when either side is empty, 1 for equal strings, 9/10 when
      one contains the other, otherwise the Jaccard index of the bigram sets (0 when
      either has none). Scores are exact rationals. */
  ghost function Similarity(a: string, b: string): real {
    if a == [] || b == [] then 0.0
    else if a == b then 1.0
    else if Contains(a, b) || Contains(b, a) then 0.9
    else Jaccard(Bigrams(a), Bigrams(b))
  }

  /** |A ∩ B| / |A ∪ B|, with the union counted as |A| + |B| - |A ∩ B|; 0 when either
      set is empty. */
  ghost function Jaccard(ga: set<string>, gb: set<string>): real {
    if |ga| == 0 || |gb| == 0 then 0.0
    else
      var inter := |ga * gb|;
      var union := |ga| + |gb| - inter;
      if union > 0 then inter as real / union as real else 0.0
  }

  method SimilarityScore(a: string, b: string) returns (score: real)
    ensures score == Similarity(a, b)
  {
    if a == [] || b == [] {
      return 0.0;
    }
    if a == b {
      return 1.0;
    }
    if Contains(a, b) || Contains(b, a) {
      return 0.9;
    }
    var gramsA := ToBigrams(a);
    var gramsB := ToBigrams(b);
    if |gramsA| == 0 || |gramsB| == 0 {
      return 0.0;
    }
    var intersection := CountShared(gramsA, gramsB);
    var union := |gramsA| + |gramsB| - intersection;
    score := if union > 0 then intersection as real / union as real else 0.0;
  }

  /** The loop of similarityScore that counts the bigrams of one set found in the other. */
  method CountShared(gramsA: set<string>, gramsB: set<string>) returns (intersection: nat)
    ensures intersection == |gramsA * gramsB|
  {
    intersection := 0;
    var remaining := gramsA;
    ghost var done: set<string> := {};
    while remaining != {}
      invariant done + remaining == gramsA && done !! remaining
      invariant intersection == |done * gramsB|
      decreases |remaining|
    {
      var gram :| gram in remaining;
      SharedStep(done, gram, gramsB);
      if gram in gramsB {
        intersection := intersection + 1;
      }
      done := done + {gram};
      remaining := remaining - {gram};
    }
  }

  lemma SharedStep(done: set<string>, gram: string, gramsB: set<string>)
    requires gram !in done
    ensures |(done + {gram}) * gramsB| == |done * gramsB| + if gram in gramsB then 1 else 0
  {
    if gram in gramsB {
      assert (done + {gram}) * gramsB == done * gramsB + {gram};
    } else {
      assert (done + {gram}) * gramsB == done * gramsB;
    }
  }

  /** Every score lies between 0 and 1. */
  lemma SimilarityBounds(a: string, b: string)
    ensures 0.0 <= Similarity(a, b) <= 1.0
  {
    JaccardBounds(Bigrams(a), Bigrams(b));
  }

  lemma JaccardBounds(ga: set<string>, gb: set<string>)
    ensures 0.0 <= Jaccard(ga, gb) <= 1.0
  {
    var inter := |ga * gb|;
    assert |ga + gb| + inter == |ga| + |gb|;
    assert inter <= |ga + gb| by {
      SubsetCard(ga * gb, ga + gb);
    }
    if |ga| > 0 && |gb| > 0 && |ga + gb| > 0 {
      RatioBounds(inter, |ga + gb|);
    }
  }

  lemma RatioBounds(n: nat, d: nat)
    requires n <= d && d > 0
    ensures 0.0 <= n as real / d as real <= 1.0
  {
  }

  lemma {:induction false} SubsetCard(x: set<string>, y: set<string>)
    requires x <= y
    ensures |x| <= |y|
    decreases |y|
  {
    if x != {} {
      var e :| e in x;
      SubsetCard(x - {e}, y - {e});
    }
  }

  /** The score does not depend on the order of its arguments. */
  lemma SimilaritySymmetric(a: string, b: string)
    ensures Similarity(a, b) == Similarity(b, a)
  {
    assert Bigrams(a) * Bigrams(b) == Bigrams(b) * Bigrams(a);
  }

  /** A name containing another, non-empty one scores 1 when they are equal and 9/10
      otherwise, above any proper bigram overlap's usual range. */
  lemma SimilarityContained(a: string, b: string)
    requires b != [] && Contains(a, b)
    ensures Similarity(a, b) == if a == b then 1.0 else 0.9
  {
    ContainsLonger(a, b);
  }

  /** A positive score means both names are present and they are equal, one contains
      the other, or they share a bigram; and conversely. */
  lemma SimilarityPositive(a: string, b: string)
    ensures Similarity(a, b) > 0.0 <==>
      a != [] && b != [] && (a == b || Contains(a, b) || Contains(b, a) || Bigrams(a) * Bigrams(b) != {})
  {
    JaccardPositive(Bigrams(a), Bigrams(b));
  }

  lemma JaccardPositive(ga: set<string>, gb: set<string>)
    ensures Jaccard(ga, gb) > 0.0 <==> ga * gb != {}
  {
    if ga * gb != {} {
      var g :| g in ga * gb;
      assert g in ga && g in gb && g in ga + gb;
      assert |ga + gb| + |ga * gb| == |ga| + |gb|;
      RatioPositive(|ga * gb|, |ga + gb|);
    }
  }

  lemma RatioPositive(n: nat, d: nat)
    requires n > 0 && d > 0
    ensures n as real / d as real > 0.0
  {
  }
}
