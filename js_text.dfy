/** The JavaScript string and number built-ins the repository relies on, restated
    over Dafny strings: whitespace and trim, ASCII lower-casing, substring tests,
    literal and alternation replacement, split/join, and parseInt/String on
    integers. Strings are sequences of code points, not of UTF-16 code units. */
module JsText {

  datatype Option<T> = None | Some(value: T)

  /** The characters JavaScript's trim() and the regular-expression class \s
      treat as white space: WhiteSpace and LineTerminator of ECMA-262. */
  predicate IsWhitespace(c: char) {
    c == '\t' || c == '\n' || c == '\U{000B}' || c == '\U{000C}' || c == '\r' || c == ' '
    || c == '\U{00A0}' || c == '\U{1680}' || ('\U{2000}' <= c <= '\U{200A}')
    || c == '\U{2028}' || c == '\U{2029}' || c == '\U{202F}' || c == '\U{205F}'
    || c == '\U{3000}' || c == '\U{FEFF}'
  }

  /** Characters matched by "." in a regular expression without the s flag stop at these. */
  predicate IsLineTerminator(c: char) {
    c == '\n' || c == '\r' || c == '\U{2028}' || c == '\U{2029}'
  }

  predicate IsDigit(c: char) { '0' <= c <= '9' }

  predicate IsBlank(s: string) {
    forall k :: 0 <= k < |s| ==> IsWhitespace(s[k])
  }

  function TrimStart(s: string): (r: string)
    ensures |r| <= |s| && (s != [] && IsWhitespace(s[0]) ==> |r| < |s|)
    ensures r == [] || !IsWhitespace(r[0])
    ensures forall k :: 0 <= k < |s| - |r| ==> IsWhitespace(s[k])
  {
    if s == [] || !IsWhitespace(s[0]) then s else TrimStart(s[1..])
  }

  function TrimEnd(s: string): (r: string)
    ensures |r| <= |s|
    ensures r == [] || !IsWhitespace(r[|r| - 1])
    ensures forall k :: |r| <= k < |s| ==> IsWhitespace(s[k])
  {
    if s == [] || !IsWhitespace(s[|s| - 1]) then s else TrimEnd(s[..|s| - 1])
  }

  /** String.prototype.trim. */
  function Trim(s: string): (r: string)
    ensures r == [] || (!IsWhitespace(r[0]) && !IsWhitespace(r[|r| - 1]))
    ensures |r| <= |s|
  {
    var t := TrimStart(s);
    TrimEndPrefix(t);
    TrimEnd(t)
  }

  /** What trimStart keeps is a suffix of its argument. */
  lemma {:induction false} TrimStartSuffix(s: string)
    ensures TrimStart(s) == s[|s| - |TrimStart(s)|..]
    decreases |s|
  {
    if s != [] && IsWhitespace(s[0]) {
      TrimStartSuffix(s[1..]);
      assert s[1..][|s| - 1 - |TrimStart(s)|..] == s[|s| - |TrimStart(s)|..];
    }
  }

  /** What trimEnd keeps is a prefix of its argument. */
  lemma {:induction false} TrimEndPrefix(s: string)
    ensures TrimEnd(s) == s[..|TrimEnd(s)|]
    decreases |s|
  {
    if s != [] && IsWhitespace(s[|s| - 1]) {
      TrimEndPrefix(s[..|s| - 1]);
      assert s[..|s| - 1][..|TrimEnd(s)|] == s[..|TrimEnd(s)|];
    }
  }

  predicate IsTrimmed(s: string) {
    s == [] || (!IsWhitespace(s[0]) && !IsWhitespace(s[|s| - 1]))
  }

  lemma TrimOfTrimmed(s: string)
    requires IsTrimmed(s)
    ensures Trim(s) == s
  {
  }

  lemma TrimEmptyIffBlank(s: string)
    ensures Trim(s) == [] <==> IsBlank(s)
  {
    var t := TrimStart(s);
    TrimStartSuffix(s);
    if t != [] {
      assert !IsWhitespace(s[|s| - |t|]);
    }
  }

  function LowerChar(c: char): char {
    if 'A' <= c <= 'Z' then (c as int + 32) as char else c
  }

  /** String.prototype.toLowerCase, restricted to the ASCII letters. */
  function ToLowerAscii(s: string): (r: string)
    ensures |r| == |s|
    ensures forall k :: 0 <= k < |s| ==> r[k] == LowerChar(s[k])
    ensures forall k :: 0 <= k < |r| ==> !('A' <= r[k] <= 'Z')
  {
    if s == [] then [] else [LowerChar(s[0])] + ToLowerAscii(s[1..])
  }

  predicate StartsWith(s: string, p: string) {
    |p| <= |s| && s[..|p|] == p
  }

  /** String.prototype.includes. */
  predicate Contains(s: string, p: string)
    decreases |s|
  {
    StartsWith(s, p) || (s != [] && Contains(s[1..], p))
  }

  lemma ContainsAt(s: string, p: string, i: nat)
    requires i + |p| <= |s| && s[i..i + |p|] == p
    ensures Contains(s, p)
    decreases i
  {
    if i > 0 {
      assert s[1..][i - 1..i - 1 + |p|] == p;
      ContainsAt(s[1..], p, i - 1);
    }
  }

  lemma ContainsWitness(s: string, p: string) returns (i: nat)
    requires Contains(s, p)
    ensures i + |p| <= |s| && s[i..i + |p|] == p
    decreases |s|
  {
    if StartsWith(s, p) {
      i := 0;
    } else {
      var j := ContainsWitness(s[1..], p);
      i := j + 1;
      assert s[i..i + |p|] == s[1..][j..j + |p|];
    }
  }

  lemma ContainsFirstChar(s: string, p: string)
    requires Contains(s, p) && p != []
    ensures exists k :: 0 <= k < |s| && s[k] == p[0]
  {
    var i := ContainsWitness(s, p);
    assert s[i..i + |p|][0] == s[i];
  }

  lemma ContainsSelf(s: string)
    ensures Contains(s, s)
  {
    assert StartsWith(s, s);
  }

  lemma ContainsLonger(s: string, p: string)
    requires Contains(s, p)
    ensures |p| <= |s|
  {
    var i := ContainsWitness(s, p);
  }

  /** Index of the first non-empty pattern that s starts with, trying them in
      order as a regular-expression alternation p0|p1|... does at one position.
      The alternations of the repository have no empty alternative. */
  function FirstPrefix(s: string, pats: seq<string>): (r: Option<nat>)
    ensures r.Some? ==> r.value < |pats| && pats[r.value] != [] && StartsWith(s, pats[r.value])
  {
    if pats == [] then None
    else if pats[0] != [] && StartsWith(s, pats[0]) then Some(0)
    else match FirstPrefix(s, pats[1..])
      case None => None
      case Some(k) => Some(k + 1)
  }

  /** s.replace(/p0|p1|.../g, rep) for literal patterns: scanning left to right,
      the first alternative that matches at a position is replaced and the scan
      resumes after it. */
  function ReplaceAll(s: string, pats: seq<string>, rep: string): string
    decreases |s|
  {
    if s == [] then []
    else match FirstPrefix(s, pats)
      case Some(k) => rep + ReplaceAll(s[|pats[k]|..], pats, rep)
      case None => [s[0]] + ReplaceAll(s[1..], pats, rep)
  }

  /** s contains none of the patterns. */
  predicate ContainsNone(s: string, pats: seq<string>) {
    pats == [] || (!Contains(s, pats[0]) && ContainsNone(s, pats[1..]))
  }

  lemma {:induction false} ContainsNoneNoPrefix(s: string, pats: seq<string>)
    requires ContainsNone(s, pats)
    ensures FirstPrefix(s, pats).None?
    decreases |pats|
  {
    if pats != [] {
      ContainsNoneNoPrefix(s, pats[1..]);
    }
  }

  lemma {:induction false} ContainsNoneTail(s: string, pats: seq<string>)
    requires s != [] && ContainsNone(s, pats)
    ensures ContainsNone(s[1..], pats)
    decreases |pats|
  {
    if pats != [] {
      ContainsNoneTail(s, pats[1..]);
    }
  }

  lemma {:induction false} ReplaceAllAbsent(s: string, pats: seq<string>, rep: string)
    requires ContainsNone(s, pats)
    ensures ReplaceAll(s, pats, rep) == s
    decreases |s|
  {
    if s != [] {
      ContainsNoneNoPrefix(s, pats);
      ContainsNoneTail(s, pats);
      ReplaceAllAbsent(s[1..], pats, rep);
      assert [s[0]] + s[1..] == s;
    }
  }

  /** Every pattern is non-empty and holds no space. */
  predicate SpaceFreePatterns(pats: seq<string>) {
    forall j :: 0 <= j < |pats| ==> pats[j] != [] && ' ' !in pats[j]
  }

  /** No pattern free of spaces matches across a space: the match at x is the match
      at x followed by text that starts with a space. */
  lemma {:induction false} FirstPrefixBeforeSpace(x: string, y: string, pats: seq<string>)
    requires SpaceFreePatterns(pats) && y != [] && y[0] == ' '
    ensures FirstPrefix(x + y, pats) == FirstPrefix(x, pats)
    decreases |pats|
  {
    if pats != [] {
      var p := pats[0];
      if |p| > |x| {
        if |p| <= |x + y| {
          assert (x + y)[..|p|][|x|] == ' ';
          assert p[|x|] != ' ';
        }
        assert !StartsWith(x + y, p) && !StartsWith(x, p);
      } else {
        assert (x + y)[..|p|] == x[..|p|];
      }
      FirstPrefixBeforeSpace(x, y, pats[1..]);
    }
  }

  /** Replacing with space-free patterns works word by word: text that starts with
      a space can be replaced on its own. */
  lemma {:induction false} ReplaceAllBeforeSpace(x: string, y: string, pats: seq<string>, rep: string)
    requires SpaceFreePatterns(pats) && y != [] && y[0] == ' '
    ensures ReplaceAll(x + y, pats, rep) == ReplaceAll(x, pats, rep) + ReplaceAll(y, pats, rep)
    decreases |x|
  {
    if x == [] {
      assert x + y == y;
    } else {
      FirstPrefixBeforeSpace(x, y, pats);
      match FirstPrefix(x, pats)
      case Some(k) =>
        assert (x + y)[|pats[k]|..] == x[|pats[k]|..] + y;
        ReplaceAllBeforeSpace(x[|pats[k]|..], y, pats, rep);
      case None =>
        assert (x + y)[1..] == x[1..] + y;
        ReplaceAllBeforeSpace(x[1..], y, pats, rep);
    }
  }

  /** A leading space is never part of a match. */
  lemma {:induction false} ReplaceAllSpace(y: string, pats: seq<string>, rep: string)
    requires SpaceFreePatterns(pats)
    ensures ReplaceAll(" " + y, pats, rep) == " " + ReplaceAll(y, pats, rep)
  {
    FirstPrefixBeforeSpace([], " " + y, pats);
    assert [] + (" " + y) == " " + y;
    NoPrefixOfEmpty(pats);
    assert (" " + y)[1..] == y;
  }

  lemma {:induction false} NoPrefixOfEmpty(pats: seq<string>)
    requires SpaceFreePatterns(pats)
    ensures FirstPrefix([], pats) == None
    decreases |pats|
  {
    if pats != [] {
      NoPrefixOfEmpty(pats[1..]);
    }
  }

  /** A prefix one longer is the prefix with the next element appended. */
  lemma {:induction false} TakeSnoc<T>(s: seq<T>, i: int)
    requires 0 <= i < |s|
    ensures s[..i + 1] == s[..i] + [s[i]]
  {
  }

  /** Five pieces concatenated left to right are the same text grouped to the right. */
  lemma {:induction false} Regroup<T>(p: seq<T>, q: seq<T>, r: seq<T>, s: seq<T>, t: seq<T>)
    ensures p + q + r + s + t == p + (q + (r + (s + t)))
  {
  }

  /** A word between two spaces is replaced on its own, and so is the text on
      either side. */
  lemma {:induction false} ReplaceAllAroundWord(a: string, w: string, b: string, pats: seq<string>, rep: string)
    requires SpaceFreePatterns(pats)
    ensures ReplaceAll(a + " " + w + " " + b, pats, rep)
         == ReplaceAll(a, pats, rep) + " " + ReplaceAll(w, pats, rep) + " " + ReplaceAll(b, pats, rep)
  {
    var tail := " " + b;
    var mid := " " + (w + tail);
    Regroup(a, " ", w, " ", b);
    ReplaceAllBeforeSpace(a, mid, pats, rep);
    ReplaceAllSpace(w + tail, pats, rep);
    ReplaceAllBeforeSpace(w, tail, pats, rep);
    ReplaceAllSpace(b, pats, rep);
    Regroup(ReplaceAll(a, pats, rep), " ", ReplaceAll(w, pats, rep), " ", ReplaceAll(b, pats, rep));
  }

  /** A pattern that holds a character s lacks never matches in s. */
  lemma {:induction false} ReplaceAllMissingChar(s: string, pats: seq<string>, rep: string)
    requires forall j :: 0 <= j < |pats| ==> exists c :: c in pats[j] && c !in s
    ensures ReplaceAll(s, pats, rep) == s
    decreases |s|
  {
    if s != [] {
      var t := s[1..];
      forall j | 0 <= j < |pats|
        ensures !StartsWith(s, pats[j])
      {
        var c :| c in pats[j] && c !in s;
        MissingCharNoPrefix(s, pats[j], c);
      }
      forall j | 0 <= j < |pats|
        ensures exists c :: c in pats[j] && c !in t
      {
        var c :| c in pats[j] && c !in s;
        assert c !in t;
      }
      ReplaceAllMissingChar(t, pats, rep);
      assert [s[0]] + t == s;
    }
  }

  lemma MissingCharNoPrefix(s: string, p: string, c: char)
    requires c in p && c !in s
    ensures !StartsWith(s, p)
  {
    var i :| 0 <= i < |p| && p[i] == c;
    if |p| <= |s| {
      assert s[..|p|][i] == s[i] != c;
    }
  }

  /** A pattern holding a character s lacks does not occur in s. */
  lemma {:induction false} MissingCharNotContained(s: string, p: string, c: char)
    requires c in p && c !in s
    ensures !Contains(s, p)
    decreases |s|
  {
    MissingCharNoPrefix(s, p, c);
    if s != [] {
      assert c !in s[1..];
      MissingCharNotContained(s[1..], p, c);
    }
  }

  /** No match starts in x when no pattern starts with a character of x. */
  lemma {:induction false} ReplaceAllSkip(x: string, y: string, pats: seq<string>, rep: string)
    requires forall j :: 0 <= j < |pats| ==> pats[j] != [] && pats[j][0] !in x
    ensures ReplaceAll(x + y, pats, rep) == x + ReplaceAll(y, pats, rep)
    decreases |x|
  {
    if x == [] {
      assert x + y == y;
    } else {
      assert (x + y)[0] == x[0];
      assert (x + y)[1..] == x[1..] + y;
      ReplaceAllSkip(x[1..], y, pats, rep);
    }
  }

  /** A match of x at the front of x + y is replaced and the scan goes on in y. */
  lemma {:induction false} ReplaceAllMatch(x: string, y: string, pats: seq<string>, rep: string, k: nat)
    requires FirstPrefix(x + y, pats) == Some(k) && k < |pats| && pats[k] == x
    ensures ReplaceAll(x + y, pats, rep) == rep + ReplaceAll(y, pats, rep)
  {
    assert (x + y)[|x|..] == y;
  }

  /** s.replace(/[class]/g, rep) where class is a character predicate. */
  function MapChars(s: string, inClass: char -> bool, rep: string): string {
    if s == [] then [] else (if inClass(s[0]) then rep else [s[0]]) + MapChars(s[1..], inClass, rep)
  }

  /** Every white-space character is a plain ' ' and is not followed by white space. */
  predicate Collapsed(s: string) {
    s == []
    || ((IsWhitespace(s[0]) ==> s[0] == ' ' && (|s| == 1 || !IsWhitespace(s[1])))
        && Collapsed(s[1..]))
  }

  /** s.replace(/\s+/g, ' '): every maximal run of white space becomes one space. */
  function CollapseWhitespace(s: string): (r: string)
    ensures Collapsed(r)
    ensures r == [] <==> s == []
    ensures |r| > 0 ==> (IsWhitespace(r[0]) <==> IsWhitespace(s[0]))
    decreases |s|
  {
    if s == [] then []
    else if IsWhitespace(s[0]) then
      var rest := CollapseWhitespace(TrimStart(s));
      assert ([' '] + rest)[1..] == rest;
      [' '] + rest
    else
      var rest := CollapseWhitespace(s[1..]);
      assert ([s[0]] + rest)[1..] == rest;
      [s[0]] + rest
  }

  /** String.prototype.split with a one-character separator; never empty. */
  function Split(s: string, sep: char): (r: seq<string>)
    ensures |r| >= 1
    ensures forall k :: 0 <= k < |r| ==> sep !in r[k]
  {
    if s == [] then [[]]
    else if s[0] == sep then [[]] + Split(s[1..], sep)
    else
      var rest := Split(s[1..], sep);
      [[s[0]] + rest[0]] + rest[1..]
  }

  /** Array.prototype.join. */
  function Join(parts: seq<string>, sep: string): string {
    if parts == [] then []
    else if |parts| == 1 then parts[0]
    else parts[0] + sep + Join(parts[1..], sep)
  }

  lemma {:induction false} SplitJoin(parts: seq<string>, sep: char)
    requires |parts| >= 1
    requires forall k :: 0 <= k < |parts| ==> sep !in parts[k]
    ensures Split(Join(parts, [sep]), sep) == parts
    decreases |parts|, |parts[0]|
  {
    var s := Join(parts, [sep]);
    if |parts| == 1 {
      SplitNoSep(parts[0], sep);
    } else if parts[0] == [] {
      assert s == [sep] + Join(parts[1..], [sep]);
      SplitJoin(parts[1..], sep);
      assert s[1..] == Join(parts[1..], [sep]);
    } else {
      var shorter := [parts[0][1..]] + parts[1..];
      assert s == [parts[0][0]] + Join(shorter, [sep]);
      assert s[1..] == Join(shorter, [sep]);
      SplitJoin(shorter, sep);
      assert [parts[0][0]] + parts[0][1..] == parts[0];
    }
  }

  lemma {:induction false} SplitNoSep(s: string, sep: char)
    requires sep !in s
    ensures Split(s, sep) == [s]
  {
    if s != [] {
      SplitNoSep(s[1..], sep);
      assert [s[0]] + s[1..] == s;
    }
  }

  function DigitValue(c: char): nat
    requires IsDigit(c)
  {
    c as int - '0' as int
  }

  function DigitChar(d: nat): (c: char)
    requires d < 10
    ensures IsDigit(c) && DigitValue(c) == d
  {
    ('0' as int + d) as char
  }

  /** The longest prefix of s made of decimal digits. */
  function DigitPrefix(s: string): (r: string)
    ensures |r| <= |s| && r == s[..|r|]
    ensures forall k :: 0 <= k < |r| ==> IsDigit(r[k])
    ensures |r| < |s| ==> !IsDigit(s[|r|])
  {
    if s == [] || !IsDigit(s[0]) then [] else [s[0]] + DigitPrefix(s[1..])
  }

  function DigitsValue(d: string): nat
    requires forall k :: 0 <= k < |d| ==> IsDigit(d[k])
  {
    if d == [] then 0 else DigitsValue(d[..|d| - 1]) * 10 + DigitValue(d[|d| - 1])
  }

  /** parseInt(s, 10): leading white space, an optional sign, then the longest run
      of decimal digits; None stands for NaN (no digit at all). */
  function ParseInt(s: string): Option<int> {
    ParseSigned(TrimStart(s))
  }

  function ParseSigned(t: string): Option<int> {
    if |t| > 0 && t[0] == '-' then Negate(ParseUnsigned(t[1..]))
    else if |t| > 0 && t[0] == '+' then ParseUnsigned(t[1..])
    else ParseUnsigned(t)
  }

  function Negate(v: Option<int>): Option<int> {
    if v.Some? then Some(-v.value) else None
  }

  function ParseUnsigned(t: string): Option<int> {
    var d := DigitPrefix(t);
    if d == [] then None else Some(DigitsValue(d))
  }

  function NatToString(n: nat): (r: string)
    ensures |r| > 0 && IsDigit(r[0])
    ensures forall k :: 0 <= k < |r| ==> IsDigit(r[k])
  {
    if n < 10 then [DigitChar(n)] else NatToString(n / 10) + [DigitChar(n % 10)]
  }

  /** String(n) for an integer n. */
  function IntToString(n: int): string {
    if n < 0 then ['-'] + NatToString(-n) else NatToString(n)
  }

  lemma {:induction false} NatToStringValue(n: nat)
    ensures DigitsValue(NatToString(n)) == n
  {
    if n >= 10 {
      var s := NatToString(n);
      NatToStringValue(n / 10);
      assert s[..|s| - 1] == NatToString(n / 10);
    }
  }

  lemma DigitPrefixAll(s: string)
    requires forall k :: 0 <= k < |s| ==> IsDigit(s[k])
    ensures DigitPrefix(s) == s
  {
    if s != [] {
      DigitPrefixAll(s[1..]);
    }
  }

  lemma ParseUnsignedDigits(d: string)
    requires d != [] && forall k :: 0 <= k < |d| ==> IsDigit(d[k])
    ensures ParseUnsigned(d) == Some(DigitsValue(d) as int)
  {
    DigitPrefixAll(d);
  }

  lemma ParseMinus(s: string, v: int)
    requires |s| > 0 && s[0] == '-' && ParseUnsigned(s[1..]) == Some(v)
    ensures ParseInt(s) == Some(-v)
  {
    assert TrimStart(s) == s;
  }

  lemma ParsePlain(s: string, v: int)
    requires |s| > 0 && IsDigit(s[0]) && ParseUnsigned(s) == Some(v)
    ensures ParseInt(s) == Some(v)
  {
    assert TrimStart(s) == s;
  }

  /** ParseInt reads back what IntToString writes. */
  lemma IntToStringRoundTrip(n: int)
    ensures ParseInt(IntToString(n)) == Some(n)
  {
    var s := IntToString(n);
    if n < 0 {
      var d := NatToString(-n);
      assert s[1..] == d;
      NatToStringValue(-n);
      ParseUnsignedDigits(d);
      ParseMinus(s, -n);
    } else {
      NatToStringValue(n);
      ParseUnsignedDigits(s);
      ParsePlain(s, n);
    }
  }

  lemma IntToStringInjective(a: int, b: int)
    requires IntToString(a) == IntToString(b)
    ensures a == b
  {
    IntToStringRoundTrip(a);
    IntToStringRoundTrip(b);
  }

  /** trim() returns a contiguous piece of its argument. */
  lemma TrimSlice(s: string) returns (i: nat, j: nat)
    ensures i <= j <= |s| && Trim(s) == s[i..j]
  {
    var t := TrimStart(s);
    TrimStartSuffix(s);
    TrimEndPrefix(t);
    i := |s| - |t|;
    j := i + |TrimEnd(t)|;
  }

  lemma {:induction false} MapCharsChars(s: string, inClass: char -> bool, rep: string, c: char)
    requires c in MapChars(s, inClass, rep)
    ensures (c in s && !inClass(c)) || c in rep
    decreases |s|
  {
    if s != [] {
      var head := if inClass(s[0]) then rep else [s[0]];
      if c !in head {
        MapCharsChars(s[1..], inClass, rep, c);
      }
    }
  }

  lemma {:induction false} ReplaceAllChars(s: string, pats: seq<string>, rep: string, c: char)
    requires c in ReplaceAll(s, pats, rep)
    ensures c in s || c in rep
    decreases |s|
  {
    if s != [] {
      match FirstPrefix(s, pats)
      case Some(k) =>
        if c !in rep {
          ReplaceAllChars(s[|pats[k]|..], pats, rep, c);
        }
      case None =>
        if c != s[0] {
          ReplaceAllChars(s[1..], pats, rep, c);
        }
    }
  }

  lemma {:induction false} CollapseChars(s: string, c: char)
    requires c in CollapseWhitespace(s)
    ensures c in s || c == ' '
    decreases |s|
  {
    if s != [] && c != ' ' {
      if IsWhitespace(s[0]) {
        TrimStartSuffix(s);
        CollapseChars(TrimStart(s), c);
      } else if c != s[0] {
        CollapseChars(s[1..], c);
      }
    }
  }

  /** White space only as single ' ' between other characters. */
  predicate SingleSpaced(s: string) {
    IsTrimmed(s) && Collapsed(s)
  }

  lemma {:induction false} CollapseOfSpaced(s: string)
    requires Collapsed(s)
    ensures CollapseWhitespace(s) == s
    decreases |s|
  {
    if s != [] {
      if IsWhitespace(s[0]) {
        assert TrimStart(s[1..]) == s[1..];
        assert TrimStart(s) == s[1..];
        assert [' '] + s[1..] == s;
      } else {
        assert [s[0]] + s[1..] == s;
      }
      CollapseOfSpaced(s[1..]);
    }
  }

  /** Two single-spaced non-empty strings joined by one space are single-spaced. */
  lemma {:induction false} SingleSpacedJoin(a: string, b: string)
    requires a != [] && b != [] && SingleSpaced(a) && SingleSpaced(b)
    ensures SingleSpaced(a + " " + b)
  {
    CollapsedJoin(a, b);
  }

  lemma {:induction false} CollapsedJoin(a: string, b: string)
    requires a != [] && !IsWhitespace(a[|a| - 1]) && Collapsed(a)
    requires b != [] && !IsWhitespace(b[0]) && Collapsed(b)
    ensures Collapsed(a + " " + b)
    decreases |a|
  {
    var s := a + " " + b;
    if |a| == 1 {
      assert s[1..] == " " + b;
      assert (" " + b)[1..] == b;
    } else {
      assert s[1..] == a[1..] + " " + b;
      CollapsedJoin(a[1..], b);
    }
  }

  /** Collapsing and trimming leaves a single-spaced string. */
  lemma CollapseTrimSpaced(s: string)
    ensures SingleSpaced(Trim(CollapseWhitespace(s)))
  {
    var c := CollapseWhitespace(s);
    var u := TrimStart(c);
    TrimStartSuffix(c);
    TrimEndPrefix(u);
    CollapsedSuffix(c, |c| - |u|);
    CollapsedPrefix(u, |TrimEnd(u)|);
  }

  lemma {:induction false} CollapsedSuffix(s: string, n: nat)
    requires n <= |s| && Collapsed(s)
    ensures Collapsed(s[n..])
    decreases n
  {
    if n > 0 {
      CollapsedSuffix(s[1..], n - 1);
      assert s[1..][n - 1..] == s[n..];
    }
  }

  lemma {:induction false} CollapsedPrefix(s: string, n: nat)
    requires n <= |s| && Collapsed(s)
    ensures Collapsed(s[..n])
    decreases n
  {
    if n > 0 {
      CollapsedPrefix(s[1..], n - 1);
      assert s[..n][1..] == s[1..][..n - 1];
    }
  }

  // ------------------------------------------------ insertion-ordered sets

  /** Set.prototype.add on an insertion-ordered set. */
  function Add(acc: seq<string>, x: string): seq<string> {
    if x in acc then acc else acc + [x]
  }

  /** Adding every element of xs in turn. */
  function AddAll(acc: seq<string>, xs: seq<string>): seq<string>
    decreases |xs|
  {
    if xs == [] then acc else AddAll(Add(acc, xs[0]), xs[1..])
  }

  predicate Distinct<T(==)>(s: seq<T>) {
    forall i, j :: 0 <= i < j < |s| ==> s[i] != s[j]
  }

  lemma AddAllProps(acc: seq<string>, xs: seq<string>)
    requires Distinct(acc)
    ensures Distinct(AddAll(acc, xs))
    ensures forall c :: c in AddAll(acc, xs) <==> c in acc || c in xs
    ensures |AddAll(acc, xs)| >= |acc| && AddAll(acc, xs)[..|acc|] == acc
  {
    AddAllDistinct(acc, xs);
    AddAllMembers(acc, xs);
    AddAllExtends(acc, xs);
  }

  /** Adding keeps the elements distinct. */
  lemma {:induction false} AddAllDistinct(acc: seq<string>, xs: seq<string>)
    requires Distinct(acc)
    ensures Distinct(AddAll(acc, xs))
    decreases |xs|
  {
    if xs != [] {
      AddKeepsDistinct(acc, xs[0]);
      AddAllDistinct(Add(acc, xs[0]), xs[1..]);
    }
  }

  /** The set holds exactly what it held and what was added. */
  lemma {:induction false} AddAllMembers(acc: seq<string>, xs: seq<string>)
    ensures forall c :: c in AddAll(acc, xs) <==> c in acc || c in xs
    decreases |xs|
  {
    if xs != [] {
      AddAllMembers(Add(acc, xs[0]), xs[1..]);
      assert xs == [xs[0]] + xs[1..];
    }
  }

  /** Insertion order: what was there stays first. */
  lemma {:induction false} AddAllExtends(acc: seq<string>, xs: seq<string>)
    ensures |AddAll(acc, xs)| >= |acc| && AddAll(acc, xs)[..|acc|] == acc
    decreases |xs|
  {
    if xs != [] {
      var next := Add(acc, xs[0]);
      AddAllExtends(next, xs[1..]);
      assert next[..|acc|] == acc;
    }
  }

  lemma AddAllCons(acc: seq<string>, x: string, xs: seq<string>)
    ensures AddAll(acc, [x] + xs) == AddAll(Add(acc, x), xs)
  {
    assert ([x] + xs)[1..] == xs;
  }

  lemma {:induction false} AddAllAppend(acc: seq<string>, xs: seq<string>, ys: seq<string>)
    ensures AddAll(acc, xs + ys) == AddAll(AddAll(acc, xs), ys)
    decreases |xs|
  {
    if xs != [] {
      assert AddAll(acc, xs) == AddAll(Add(acc, xs[0]), xs[1..]);
      assert (xs + ys)[0] == xs[0] && (xs + ys)[1..] == xs[1..] + ys;
      assert AddAll(acc, xs + ys) == AddAll(Add(acc, xs[0]), xs[1..] + ys);
      AddAllAppend(Add(acc, xs[0]), xs[1..], ys);
    } else {
      assert xs + ys == ys;
    }
  }

  lemma AddAllSnoc(acc: seq<string>, xs: seq<string>, x: string)
    ensures AddAll(acc, xs + [x]) == Add(AddAll(acc, xs), x)
  {
    AddAllAppend(acc, xs, [x]);
  }

  lemma AddKeepsDistinct(acc: seq<string>, x: string)
    requires Distinct(acc)
    ensures Distinct(Add(acc, x))
  {
  }

  /** xs.map(f).filter(Boolean): the values f gives, in order, the failures dropped. */
  function FilterMap<A, B>(f: A -> Option<B>, xs: seq<A>): (r: seq<B>)
    ensures |r| <= |xs|
    decreases |xs|
  {
    if xs == [] then []
    else
      var rest := FilterMap(f, xs[..|xs| - 1]);
      var y := f(xs[|xs| - 1]);
      if y.Some? then rest + [y.value] else rest
  }

  /** Every value kept is what f gives for some element. */
  lemma {:induction false} FilterMapSound<A, B>(f: A -> Option<B>, xs: seq<A>, j: int)
    requires 0 <= j < |FilterMap(f, xs)|
    ensures exists i :: 0 <= i < |xs| && f(xs[i]) == Some(FilterMap(f, xs)[j])
    decreases |xs|
  {
    var n := |xs|;
    var init := xs[..n - 1];
    var rest := FilterMap(f, init);
    if j < |rest| {
      FilterMapSound(f, init, j);
      var i :| 0 <= i < |init| && f(init[i]) == Some(rest[j]);
      assert xs[i] == init[i];
    } else {
      assert f(xs[n - 1]) == Some(FilterMap(f, xs)[j]);
    }
  }

  /** Every value f gives for an element is kept. */
  lemma {:induction false} FilterMapComplete<A, B>(f: A -> Option<B>, xs: seq<A>, i: int)
    requires 0 <= i < |xs| && f(xs[i]).Some?
    ensures f(xs[i]).value in FilterMap(f, xs)
    decreases |xs|
  {
    var n := |xs|;
    var init := xs[..n - 1];
    if i < n - 1 {
      assert xs[i] == init[i];
      FilterMapComplete(f, init, i);
    }
  }
}
