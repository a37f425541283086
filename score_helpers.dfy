/** The small score-card helpers of the score-photo page: digit-only score input,
    score totals, the score-versus-par symbol, the date shown on the card and the
    estimated pars built from a course's total. */
module ScoreHelpers {
  import opened JsText
  import opened Resolve

  // Score input

  /** createEmptyScores: one empty score per hole. */
  function CreateEmptyScores(length: nat): (r: seq<string>)
    ensures |r| == length
    ensures forall i :: 0 <= i < |r| ==> r[i] == []
  {
    seq(length, _ => [])
  }

  /** sanitizeNumberInput: every character that is not an ASCII digit is removed. */
  function SanitizeNumberInput(value: string): (r: string)
    ensures |r| <= |value|
    ensures forall k :: 0 <= k < |r| ==> IsDigit(r[k])
    decreases |value|
  {
    if value == [] then []
    else
      var rest := SanitizeNumberInput(value[..|value| - 1]);
      if IsDigit(value[|value| - 1]) then rest + [value[|value| - 1]] else rest
  }

  /** The digits are kept in order: sanitizing a concatenation sanitizes each part. */
  lemma {:induction false} SanitizeAppend(a: string, b: string)
    ensures SanitizeNumberInput(a + b) == SanitizeNumberInput(a) + SanitizeNumberInput(b)
    decreases |b|
  {
    if b == [] {
      assert a + b == a;
    } else {
      var init := b[..|b| - 1];
      SanitizeAppend(a, init);
      assert (a + b)[..|a + b| - 1] == a + init;
    }
  }

  /** A value made only of digits is left as it is. */
  lemma {:induction false} SanitizeDigits(value: string)
    requires forall k :: 0 <= k < |value| ==> IsDigit(value[k])
    ensures SanitizeNumberInput(value) == value
    decreases |value|
  {
    if value != [] {
      SanitizeDigits(value[..|value| - 1]);
      assert value[..|value| - 1] + [value[|value| - 1]] == value;
    }
  }

  /** Sanitizing twice is sanitizing once. */
  lemma SanitizeIdempotent(value: string)
    ensures SanitizeNumberInput(SanitizeNumberInput(value)) == SanitizeNumberInput(value)
  {
    SanitizeDigits(SanitizeNumberInput(value));
  }

  /** parseScoreValue: parseInt(value, 10), None standing for NaN. An empty field is
      NaN; a field of digits, as the sanitized input always is, reads as its decimal
      value. */
  function ParseScoreValue(value: string): (r: Option<int>)
    ensures value == [] ==> r.None?
    ensures value != [] && (forall k :: 0 <= k < |value| ==> IsDigit(value[k])) ==>
      r == Some(DigitsValue(value) as int)
  {
    if value != [] && forall k :: 0 <= k < |value| ==> IsDigit(value[k]) then
      ParseUnsignedDigits(value);
      ParsePlain(value, DigitsValue(value) as int);
      ParseInt(value)
    else
      ParseInt(value)
  }

  /** One score's share of the total: parseInt(value, 10) || 0. */
  function ScoreOf(value: string): int {
    var v := ParseScoreValue(value);
    if v.Some? then v.value else 0
  }

  /** sumScores: the total of the scores entered, an unreadable one counting 0. When no
      score reads as negative, the total is at least each score. */
  function SumScores(values: seq<string>): (r: int)
    ensures (forall k :: 0 <= k < |values| ==> ScoreOf(values[k]) >= 0) ==>
      r >= 0 && forall k :: 0 <= k < |values| ==> ScoreOf(values[k]) <= r
    decreases |values|
  {
    if values == [] then 0
    else
      var init := values[..|values| - 1];
      assert forall k :: 0 <= k < |init| ==> init[k] == values[k];
      SumScores(init) + ScoreOf(values[|values| - 1])
  }

  /** The total of two runs of holes is the sum of their totals. */
  lemma {:induction false} SumScoresAppend(a: seq<string>, b: seq<string>)
    ensures SumScores(a + b) == SumScores(a) + SumScores(b)
    decreases |b|
  {
    if b == [] {
      assert a + b == a;
    } else {
      var init := b[..|b| - 1];
      SumScoresAppend(a, init);
      assert (a + b)[..|a + b| - 1] == a + init;
    }
  }

  /** A fresh score card totals 0. */
  lemma {:induction false} SumEmptyScores(length: nat)
    ensures SumScores(CreateEmptyScores(length)) == 0
  {
    if length > 0 {
      SumEmptyScores(length - 1);
      assert CreateEmptyScores(length)[..length - 1] == CreateEmptyScores(length - 1);
    }
  }

  /** Scores written out as numbers, one per hole. */
  function WriteScores(scores: seq<int>): (r: seq<string>)
    ensures |r| == |scores|
    decreases |scores|
  {
    if scores == [] then [] else WriteScores(scores[..|scores| - 1]) + [IntToString(scores[|scores| - 1])]
  }

  /** Scores written out as numbers total their sum. */
  lemma {:induction false} SumScoresWritten(scores: seq<int>)
    ensures SumScores(WriteScores(scores)) == SumPars(scores)
    decreases |scores|
  {
    if scores != [] {
      var n := |scores|;
      SumScoresWritten(scores[..n - 1]);
      IntToStringRoundTrip(scores[n - 1]);
      assert WriteScores(scores)[..n - 1] == WriteScores(scores[..n - 1]);
    }
  }

  // Score symbol

  const DoubleCircle: char := '◎'
  const Circle: char := '○'
  const Dash: char := '−'
  const Triangle: char := '△'
  const Square: char := '■'

  /** The symbol for a score diff strokes off par. */
  function IconOfDiff(diff: int): string {
    if diff <= -2 then [DoubleCircle]
    else if diff == -1 then [Circle]
    else if diff == 0 then [Dash]
    else if diff == 1 then [Triangle]
    else if diff == 2 then [Square]
    else ['+'] + IntToString(diff)
  }

  /** getScoreIcon: empty when the score or the par cannot be read. */
  function GetScoreIcon(scoreValue: string, parValue: string): (r: string)
    ensures r == [] <==> ParseScoreValue(scoreValue).None? || ParseScoreValue(parValue).None?
  {
    var score := ParseScoreValue(scoreValue);
    var par := ParseScoreValue(parValue);
    if score.None? || par.None? then [] else IconOfDiff(score.value - par.value)
  }

  /** The diff a symbol stands for, -2 standing for two or more under par. */
  function ReadIcon(icon: string): Option<int> {
    if icon == [DoubleCircle] then Some(-2)
    else if icon == [Circle] then Some(-1)
    else if icon == [Dash] then Some(0)
    else if icon == [Triangle] then Some(1)
    else if icon == [Square] then Some(2)
    else if |icon| > 1 && icon[0] == '+' then ParseInt(icon)
    else None
  }

  lemma ReadPlus(n: nat)
    ensures ParseInt(['+'] + NatToString(n)) == Some(n)
  {
    var s := ['+'] + NatToString(n);
    assert TrimStart(s) == s;
    assert s[1..] == NatToString(n);
    NatToStringValue(n);
    ParseUnsignedDigits(NatToString(n));
  }

  /** The symbol tells the diff back, every diff of two or more under par showing as one symbol. */
  lemma IconRoundTrip(diff: int)
    ensures ReadIcon(IconOfDiff(diff)) == Some(if diff <= -2 then -2 else diff)
  {
    if diff > 2 {
      ReadPlus(diff);
      assert IconOfDiff(diff) == ['+'] + NatToString(diff);
    }
  }

  /** Different diffs, from two under par upwards, show different symbols. */
  lemma IconsDistinct(a: int, b: int)
    requires -2 <= a && -2 <= b && a != b
    ensures IconOfDiff(a) != IconOfDiff(b)
  {
    IconRoundTrip(a);
    IconRoundTrip(b);
  }

  /** The symbol shown reads back as the score minus the par. */
  lemma GetScoreIconReads(scoreValue: string, parValue: string)
    requires ParseScoreValue(scoreValue).Some? && ParseScoreValue(parValue).Some?
    ensures var diff := ParseScoreValue(scoreValue).value - ParseScoreValue(parValue).value;
            ReadIcon(GetScoreIcon(scoreValue, parValue)) == Some(if diff <= -2 then -2 else diff)
  {
    IconRoundTrip(ParseScoreValue(scoreValue).value - ParseScoreValue(parValue).value);
  }

  // Date

  /** formatDateDisplay: "year-month-day" shown as "year.month.day"; anything without
      three non-empty parts is shown as it is. */
  function FormatDateDisplay(value: string): (r: string)
    ensures value == [] ==> r == []
  {
    if value == [] then []
    else
      var parts := Split(value, '-');
      var year := parts[0];
      var month := if |parts| > 1 then parts[1] else [];
      var day := if |parts| > 2 then parts[2] else [];
      if year == [] || month == [] || day == [] then value
      else year + ['.'] + month + ['.'] + day
  }

  /** A date without a hyphen is shown as it is. */
  lemma FormatDateNoHyphen(value: string)
    requires '-' !in value
    ensures FormatDateDisplay(value) == value
  {
    SplitNoSep(value, '-');
  }

  /** An ISO date is shown with dots. */
  lemma FormatDateParts(year: string, month: string, day: string)
    requires year != [] && month != [] && day != []
    requires '-' !in year && '-' !in month && '-' !in day
    ensures FormatDateDisplay(year + ['-'] + month + ['-'] + day) == year + ['.'] + month + ['.'] + day
  {
    var parts := [year, month, day];
    SplitJoin(parts, '-');
    assert parts[1..] == [month, day] && [month, day][1..] == [day];
    assert Join([month, day], ['-']) == month + ['-'] + Join([day], ['-']);
    assert Join(parts, ['-']) == year + ['-'] + Join([month, day], ['-']);
    assert Join(parts, ['-']) == year + ['-'] + month + ['-'] + day;
  }

  // Estimated pars

  /** Eighteen pars whose first count holes are value and the rest 4. */
  function Pattern(len: nat, count: nat, value: int): seq<int> {
    seq(len, i => if i < count then value else 4)
  }

  lemma {:induction false} PatternSum(len: nat, count: nat, value: int)
    requires count <= len
    ensures SumPars(Pattern(len, count, value)) == 4 * len + count * (value - 4)
  {
    if len > 0 {
      var c := if count == len then count - 1 else count;
      PatternSum(len - 1, c, value);
      PatternLast(len, count, value);
      SumParsLast(Pattern(len, count, value));
      if count == len {
        MulStep(count, value - 4);
      }
    }
  }

  /** Dropping the last hole of a pattern leaves the pattern one hole shorter. */
  lemma {:induction false} PatternLast(len: nat, count: nat, value: int)
    requires 0 < len && count <= len
    ensures Pattern(len, count, value)[..len - 1] == Pattern(len - 1, if count == len then count - 1 else count, value)
    ensures Pattern(len, count, value)[len - 1] == if count == len then value else 4
  {
    assert Pattern(len, count, value)[..len - 1] == Pattern(len - 1, if count == len then count - 1 else count, value);
  }

  lemma {:induction false} SumParsLast(pars: seq<int>)
    requires pars != []
    ensures SumPars(pars) == SumPars(pars[..|pars| - 1]) + pars[|pars| - 1]
  {
  }

  lemma {:induction false} MulStep(c: int, d: int)
    ensures c * d == (c - 1) * d + d
  {
  }

  function Abs(x: int): nat {
    if x < 0 then -x else x
  }

  /** buildEstimatedPars: pars for an 18-hole course known only by its total, made of
      4s with the first holes raised to 5 or lowered to 3; None for another hole count,
      a total that is not a number, or a total more than 6 away from 72. */
  method BuildEstimatedPars(totalPar: Option<int>, holeCount: int) returns (pars: Option<seq<int>>)
    ensures pars.None? <==> totalPar.None? || holeCount != 18 || Abs(totalPar.value - 72) > 6
    ensures pars.Some? ==> |pars.value| == 18 && SumPars(pars.value) == totalPar.value
    ensures pars.Some? ==> forall i :: 0 <= i < |pars.value| ==> 3 <= pars.value[i] <= 5
    ensures pars.Some? ==> forall i :: 0 <= i < |pars.value| ==> (pars.value[i] != 4 <==> i < Abs(totalPar.value - 72))
  {
    if totalPar.None? || holeCount != 18 {
      return None;
    }
    var base := 4;
    var baseTotal := base * holeCount;
    var delta := totalPar.value - baseTotal;
    if Abs(delta) > 6 {
      return None;
    }
    var a := new int[holeCount](_ => base);
    assert a[..] == Pattern(18, 0, 5);
    if delta > 0 {
      for i := 0 to delta
        invariant a[..] == Pattern(18, i, 5)
      {
        a[i] := 5;
      }
      PatternSum(18, delta, 5);
    } else if delta < 0 {
      for i := 0 to Abs(delta)
        invariant a[..] == Pattern(18, i, 3)
      {
        a[i] := 3;
      }
      PatternSum(18, -delta, 3);
    } else {
      PatternSum(18, 0, 5);
    }
    return Some(a[..]);
  }
}
