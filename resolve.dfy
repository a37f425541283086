/** Resolving a local course against the courses a remote search returns: the
    best-scoring candidate, its tee box and the eighteen pars read from it. */
module Resolve {
  import opened JsText
  import opened SyncArgs
  import opened SyncNames
  import opened BigramSimilarity

  /** One hole of a remote tee; par is the JSON value as text, absent when missing. */
  datatype Hole = Hole(par: Option<string>)

  datatype Tee = Tee(teeName: string, numberOfHoles: Option<string>, holes: seq<Hole>)

  /** A search result. Missing names and countries are empty strings; tee lists
      that are not arrays are empty. */
  datatype RemoteCourse = RemoteCourse(
    id: Option<string>,
    courseName: string,
    clubName: string,
    country: string,
    male: seq<Tee>,
    female: seq<Tee>)

  /** A candidate with its match score. */
  datatype Scored = Scored(course: RemoteCourse, score: real)

  /** filter(Boolean) on a list of strings. */
  function NonEmpty(xs: seq<string>): (r: seq<string>)
    ensures forall k :: 0 <= k < |r| ==> r[k] != []
    ensures forall x :: x in r <==> x in xs && x != []
  {
    if xs == [] then []
    else if xs[0] == [] then NonEmpty(xs[1..])
    else [xs[0]] + NonEmpty(xs[1..])
  }

  // ---------------------------------------------------------------- isJapanCourse

  predicate HasLetterJ(s: string) {
    exists k :: 0 <= k < |s| && (s[k] == 'j' || s[k] == 'J')
  }

  /** isJapanCourse: the lower-cased country mentions japan or is jp / jpn. */
  function IsJapanCountry(country: string): (b: bool)
    ensures b ==> |country| >= 2 && HasLetterJ(country)
  {
    var c := ToLowerAscii(country);
    if Contains(c, "japan") then
      ContainsLonger(c, "japan");
      ContainsFirstChar(c, "japan");
      true
    else
      if c == "jp" || c == "jpn" then assert c[0] == 'j'; true else false
  }

  /** The test ignores ASCII case. */
  lemma IsJapanCaseInsensitive(country: string)
    ensures IsJapanCountry(country) <==> IsJapanCountry(ToLowerAscii(country))
  {
    LowerIdentity(ToLowerAscii(country));
  }

  // ---------------------------------------------------------------- pickBestMatch

  /** [course_name, club_name].filter(Boolean).join(' '). */
  function CombinedName(c: RemoteCourse): string {
    Join(NonEmpty([c.courseName, c.clubName]), " ")
  }

  /** The targets normalised, empty ones dropped. */
  function NormalizedTargets(targetNames: seq<string>): seq<string> {
    NonEmpty(seq(|targetNames|, i requires 0 <= i < |targetNames| => NormalizeName(targetNames[i])))
  }

  function RealMax(a: real, b: real): real { if a >= b then a else b }

  /** The running maximum of the similarity to each target, starting from 0. */
  ghost function MaxSimilarity(targets: seq<string>, candidate: string): real {
    if targets == [] then 0.0
    else RealMax(MaxSimilarity(targets[..|targets| - 1], candidate), Similarity(targets[|targets| - 1], candidate))
  }

  /** A candidate's score: the best similarity of its combined name to any target,
      plus 1/20 for a course in Japan. */
  ghost function CandidateScore(targets: seq<string>, c: RemoteCourse): real {
    MaxSimilarity(targets, NormalizeName(CombinedName(c))) + if IsJapanCountry(c.country) then 0.05 else 0.0
  }

  ghost function Scores(results: seq<RemoteCourse>, targets: seq<string>): (r: seq<real>)
    ensures |r| == |results|
  {
    seq(|results|, i requires 0 <= i < |results| => CandidateScore(targets, results[i]))
  }

  /** The position of the first maximum: what a stable descending sort puts first. */
  function FirstMaxIndex(xs: seq<real>): (k: nat)
    requires xs != []
    ensures k < |xs|
  {
    if |xs| == 1 then 0
    else
      var k := FirstMaxIndex(xs[..|xs| - 1]);
      if xs[|xs| - 1] > xs[k] then |xs| - 1 else k
  }

  /** pickBestMatch: null without a usable target or without results, otherwise the
      first candidate with the highest score. */
  ghost function BestMatch(results: seq<RemoteCourse>, targetNames: seq<string>): Option<Scored> {
    var targets := NormalizedTargets(targetNames);
    if targets == [] || results == [] then None
    else
      var scores := Scores(results, targets);
      var k := FirstMaxIndex(scores);
      Some(Scored(results[k], scores[k]))
  }

  method PickBestMatch(results: seq<RemoteCourse>, targetNames: seq<string>) returns (best: Option<Scored>)
    ensures best == BestMatch(results, targetNames)
  {
    var targets := NormalizedTargets(targetNames);
    if targets == [] {
      return None;
    }
    var scores := ScoreCandidates(results, targets);
    if scores == [] {
      return None;
    }
    var k := FirstMax(scores);
    return Some(Scored(results[k], scores[k]));
  }

  /** results.map(...): every candidate with its score. */
  method ScoreCandidates(results: seq<RemoteCourse>, targets: seq<string>) returns (scores: seq<real>)
    ensures scores == Scores(results, targets)
  {
    scores := [];
    for i := 0 to |results|
      invariant scores == Scores(results, targets)[..i]
    {
      var s := CandidateScoreOf(targets, results[i]);
      TakeSnoc(Scores(results, targets), i);
      scores := scores + [s];
    }
  }

  method CandidateScoreOf(targets: seq<string>, c: RemoteCourse) returns (score: real)
    ensures score == CandidateScore(targets, c)
  {
    var candidate := NormalizeName(CombinedName(c));
    score := 0.0;
    for i := 0 to |targets|
      invariant score == MaxSimilarity(targets[..i], candidate)
    {
      var s := SimilarityScore(targets[i], candidate);
      assert targets[..i + 1][..i] == targets[..i];
      score := RealMax(score, s);
    }
    assert targets[..|targets|] == targets;
    if IsJapanCountry(c.country) {
      score := score + 0.05;
    }
  }

  /** The sort followed by scored[0]: a scan that moves only on a strictly higher score. */
  method FirstMax(xs: seq<real>) returns (k: nat)
    requires xs != []
    ensures k == FirstMaxIndex(xs)
  {
    k := 0;
    for i := 1 to |xs|
      invariant k == FirstMaxIndex(xs[..i])
    {
      assert xs[..i + 1][..i] == xs[..i];
      if xs[i] > xs[k] {
        k := i;
      }
    }
    assert xs[..|xs|] == xs;
  }

  /** The first maximum is a maximum, and every earlier score is strictly lower. */
  lemma {:induction false} FirstMaxIndexProps(xs: seq<real>)
    requires xs != []
    ensures forall j :: 0 <= j < |xs| ==> xs[j] <= xs[FirstMaxIndex(xs)]
    ensures forall j :: 0 <= j < FirstMaxIndex(xs) ==> xs[j] < xs[FirstMaxIndex(xs)]
    decreases |xs|
  {
    if |xs| > 1 {
      var init := xs[..|xs| - 1];
      FirstMaxIndexProps(init);
      assert forall j :: 0 <= j < |init| ==> init[j] == xs[j];
    }
  }

  /** The running maximum is at least each target's similarity, never above 1, and
      either 0 or attained by some target. */
  lemma {:induction false} MaxSimilarityProps(targets: seq<string>, candidate: string)
    ensures 0.0 <= MaxSimilarity(targets, candidate) <= 1.0
    ensures forall t :: t in targets ==> Similarity(t, candidate) <= MaxSimilarity(targets, candidate)
    ensures MaxSimilarity(targets, candidate) == 0.0
      || exists t :: t in targets && Similarity(t, candidate) == MaxSimilarity(targets, candidate)
    decreases |targets|
  {
    if targets != [] {
      var init := targets[..|targets| - 1];
      var last := targets[|targets| - 1];
      MaxSimilarityProps(init, candidate);
      SimilarityBounds(last, candidate);
      assert targets == init + [last];
    }
  }

  /** A score lies between 0 and 1.05, and is at least 1/20 for a course in Japan. */
  lemma CandidateScoreBounds(targets: seq<string>, c: RemoteCourse)
    ensures 0.0 <= CandidateScore(targets, c) <= 1.05
    ensures IsJapanCountry(c.country) ==> CandidateScore(targets, c) >= 0.05
  {
    MaxSimilarityProps(targets, NormalizeName(CombinedName(c)));
  }

  /** pickBestMatch is null exactly when no target survives normalisation or there is
      no result; otherwise it returns a result whose score is its own candidate score,
      no lower than any other result's, and strictly higher than every earlier one's. */
  lemma BestMatchProps(results: seq<RemoteCourse>, targetNames: seq<string>)
    ensures var targets := NormalizedTargets(targetNames);
      && (BestMatch(results, targetNames).None? <==> targets == [] || results == [])
      && (BestMatch(results, targetNames).Some? ==>
            var b := BestMatch(results, targetNames).value;
            exists k :: 0 <= k < |results| && results[k] == b.course
              && b.score == CandidateScore(targets, results[k])
              && (forall j :: 0 <= j < |results| ==> CandidateScore(targets, results[j]) <= b.score)
              && (forall j :: 0 <= j < k ==> CandidateScore(targets, results[j]) < b.score))
  {
    var targets := NormalizedTargets(targetNames);
    if targets != [] && results != [] {
      var scores := Scores(results, targets);
      FirstMaxIndexProps(scores);
      var k := FirstMaxIndex(scores);
      assert forall j :: 0 <= j < |results| ==> scores[j] == CandidateScore(targets, results[j]);
      assert results[k] == BestMatch(results, targetNames).value.course;
    }
  }

  // ------------------------------------------------------------------ selectTeeBox

  function AllTees(c: RemoteCourse): seq<Tee> {
    c.male + c.female
  }

  /** number_of_holes (defaulting to the number of hole entries) is 18, and there
      are at least 18 hole entries. */
  predicate HasEighteenHoles(t: Tee) {
    ParseInteger(t.numberOfHoles, Some(|t.holes|)) == Some(18) && |t.holes| >= 18
  }

  function WithEighteenHoles(tees: seq<Tee>): (r: seq<Tee>)
    ensures forall t :: t in r <==> t in tees && HasEighteenHoles(t)
  {
    if tees == [] then []
    else if HasEighteenHoles(tees[0]) then [tees[0]] + WithEighteenHoles(tees[1..])
    else WithEighteenHoles(tees[1..])
  }

  /** The full-length tees if there are any, else every tee. */
  function TeeCandidates(tees: seq<Tee>): seq<Tee> {
    var w := WithEighteenHoles(tees);
    if w != [] then w else tees
  }

  /** The lower-cased tee name contains the (already lower-cased, non-empty) target. */
  predicate TeeMatches(t: Tee, target: string) {
    target != [] && Contains(ToLowerAscii(t.teeName), target)
  }

  /** The index of the first tee whose name matches the target. */
  function FirstMatching(tees: seq<Tee>, target: string): (r: Option<nat>)
    ensures r.Some? ==> (r.value < |tees| && TeeMatches(tees[r.value], target)
      && forall j :: 0 <= j < r.value ==> !TeeMatches(tees[j], target))
    ensures r.None? ==> forall j :: 0 <= j < |tees| ==> !TeeMatches(tees[j], target)
  {
    if tees == [] then None
    else
      var init := tees[..|tees| - 1];
      match FirstMatching(init, target)
      case Some(j) => Some(j)
      case None => if TeeMatches(tees[|tees| - 1], target) then Some(|tees| - 1) else None
  }

  lemma {:induction false} FirstMatchingSnoc(tees: seq<Tee>, i: int, target: string)
    requires 0 <= i < |tees|
    ensures FirstMatching(tees[..i + 1], target)
         == match FirstMatching(tees[..i], target)
            case Some(j) => Some(j)
            case None => if TeeMatches(tees[i], target) then Some(i) else None
  {
    assert tees[..i + 1][..i] == tees[..i];
  }

  /** selectTeeBox: no tee without tees; otherwise the first candidate whose name
      contains the preferred name, failing that the first candidate when falling back
      is allowed, else none. */
  function SelectTee(c: RemoteCourse, teeName: string, allowFallback: bool): Option<Tee> {
    var tees := AllTees(c);
    if tees == [] then None
    else
      var candidates := TeeCandidates(tees);
      match FirstMatching(candidates, ToLowerAscii(teeName))
      case Some(i) => Some(candidates[i])
      case None => if allowFallback then Some(candidates[0]) else None
  }

  method SelectTeeBox(c: RemoteCourse, teeName: string, allowFallback: bool) returns (tee: Option<Tee>)
    ensures tee == SelectTee(c, teeName, allowFallback)
  {
    var tees := c.male + c.female;
    if tees == [] {
      return None;
    }
    var target := ToLowerAscii(teeName);
    var withHoles := WithEighteenHoles(tees);
    var candidates := if withHoles != [] then withHoles else tees;
    var best: Option<Tee> := None;
    var bestScore := -1;
    for i := 0 to |candidates|
      invariant i == 0 ==> best == None && bestScore == -1
      invariant i > 0 ==> match FirstMatching(candidates[..i], target)
        case Some(j) => best == Some(candidates[j]) && bestScore == 1
        case None => best == Some(candidates[0]) && bestScore == 0
    {
      FirstMatchingSnoc(candidates, i, target);
      var score := if TeeMatches(candidates[i], target) then 1 else 0;
      if score > bestScore {
        best := Some(candidates[i]);
        bestScore := score;
      }
    }
    assert candidates[..|candidates|] == candidates;
    if best.Some? && bestScore > 0 {
      return best;
    }
    if allowFallback && |candidates| > 0 {
      return Some(candidates[0]);
    }
    return None;
  }

  /** The tee chosen is always one of the candidates: a full-length tee when the
      course has one. A matching candidate wins over the fallback, and the fallback
      is taken only when allowed. */
  lemma SelectTeeProps(c: RemoteCourse, teeName: string, allowFallback: bool)
    ensures SelectTee(c, teeName, allowFallback).None? <==>
      AllTees(c) == [] || (!allowFallback && FirstMatching(TeeCandidates(AllTees(c)), ToLowerAscii(teeName)).None?)
    ensures SelectTee(c, teeName, allowFallback).Some? ==>
      var t := SelectTee(c, teeName, allowFallback).value;
      && t in TeeCandidates(AllTees(c))
      && (WithEighteenHoles(AllTees(c)) != [] ==> HasEighteenHoles(t))
      && (!TeeMatches(t, ToLowerAscii(teeName)) ==> allowFallback && t == TeeCandidates(AllTees(c))[0])
  {
  }

  // ----------------------------------------------------------- extractPars, sumPars

  /** extractPars: the first eighteen pars as integers, or nothing when there are
      fewer than eighteen holes or one of those pars does not parse. */
  function ExtractPars(t: Tee): (r: Option<seq<int>>)
    ensures r.Some? <==> |t.holes| >= 18 && forall k :: 0 <= k < 18 ==> ParseInteger(t.holes[k].par, None).Some?
    ensures r.Some? ==> |r.value| == 18 && forall k :: 0 <= k < 18 ==> Some(r.value[k]) == ParseInteger(t.holes[k].par, None)
  {
    if |t.holes| < 18 then None
    else
      var pars := seq(18, k requires 0 <= k < 18 => ParseInteger(t.holes[k].par, None));
      assert forall k :: 0 <= k < 18 ==> pars[k] == ParseInteger(t.holes[k].par, None);
      if forall k :: 0 <= k < 18 ==> pars[k].Some? then
        var values := seq(18, k requires 0 <= k < 18 => pars[k].value);
        assert forall k :: 0 <= k < 18 ==> Some(values[k]) == pars[k];
        Some(values)
      else None
  }

  /** Holes whose pars were written as numbers give those numbers back. */
  lemma ExtractParsOfWritten(t: Tee, pars: seq<int>)
    requires |pars| == 18 && |t.holes| >= 18
    requires forall k :: 0 <= k < 18 ==> t.holes[k].par == Some(IntToString(pars[k]))
    ensures ExtractPars(t) == Some(pars)
  {
    forall k | 0 <= k < 18
      ensures ParseInteger(t.holes[k].par, None) == Some(pars[k])
    {
      ParseIntegerOfString(pars[k], None);
    }
    var v := ExtractPars(t).value;
    assert forall k :: 0 <= k < 18 ==> Some(v[k]) == Some(pars[k]);
    assert v == pars;
  }

  predicate NoNegativePar(pars: seq<int>) {
    forall k :: 0 <= k < |pars| ==> pars[k] >= 0
  }

  predicate EachParAtMost(pars: seq<int>, bound: int) {
    forall k :: 0 <= k < |pars| ==> pars[k] <= bound
  }

  /** sumPars: pars.reduce((sum, value) => sum + value, 0). With no negative par, the
      total is non-negative and no smaller than any single par. */
  function SumPars(pars: seq<int>): (r: int)
    ensures NoNegativePar(pars) ==> r >= 0 && EachParAtMost(pars, r)
  {
    if pars == [] then 0 else SumPars(pars[..|pars| - 1]) + pars[|pars| - 1]
  }

  /** The sum of a concatenation is the sum of the parts: the front and back nines
      add up to the total. */
  lemma {:induction false} SumParsAppend(a: seq<int>, b: seq<int>)
    ensures SumPars(a + b) == SumPars(a) + SumPars(b)
    decreases |b|
  {
    if b == [] {
      assert a + b == a;
    } else {
      var init := b[..|b| - 1];
      SumParsAppend(a, init);
      assert (a + b)[..|a + b| - 1] == a + init;
      assert (a + b)[|a + b| - 1] == b[|b| - 1];
    }
  }

  /** isLikelyEstimatedPars: eighteen pars, all 4. The placeholder is a card of
      eighteen holes totalling 72. */
  predicate IsLikelyEstimatedPars(pars: seq<int>)
    ensures IsLikelyEstimatedPars(pars) ==> |pars| == 18 && SumPars(pars) == 72
  {
    if |pars| == 18 && forall k :: 0 <= k < 18 ==> pars[k] == 4 then
      SumOfFours(pars);
      true
    else
      false
  }

  lemma {:induction false} SumOfFours(pars: seq<int>)
    requires forall k :: 0 <= k < |pars| ==> pars[k] == 4
    ensures SumPars(pars) == 4 * |pars|
    decreases |pars|
  {
    if pars != [] {
      SumOfFours(pars[..|pars| - 1]);
    }
  }
}
