/** Name clean-up of the golf-course sync script: removing bracketed decorations,
    the normalised form used for similarity, the romaji clean-up, the romaji golf
    vocabulary and the ordered, de-duplicated list of search queries. */
module SyncNames {
  import opened JsText

  // ------------------------------------------------ stripDecorations

  /** One pass of s.replace(/<open>[^<close>]*<close>/g, ''): an opening bracket
      with a closing bracket somewhere after it is dropped together with everything
      up to the first such closing bracket; any other character is kept. */
  function RemoveBracketed(s: string, open: char, close: char): string
    requires open != close
    decreases |s|
  {
    if s == [] then []
    else if s[0] == open && close in s[1..] then
      RemoveBracketed(s[1 + FirstIndex(s[1..], close) + 1..], open, close)
    else [s[0]] + RemoveBracketed(s[1..], open, close)
  }

  function FirstIndex(s: string, c: char): (r: nat)
    requires c in s
    ensures r < |s| && s[r] == c
  {
    if s[0] == c then 0 else 1 + FirstIndex(s[1..], c)
  }

  /** The five bracket styles stripDecorations removes, in the order it removes them. */
  const Brackets: seq<(char, char)> :=
    [('(', ')'), ('\U{FF08}', '\U{FF09}'), ('【', '】'), ('［', '］'), ('[', ']')]

  predicate DistinctEnds(ps: seq<(char, char)>) {
    forall k :: 0 <= k < |ps| ==> ps[k].0 != ps[k].1
  }

  function RemoveAll(s: string, ps: seq<(char, char)>): string
    requires DistinctEnds(ps)
    decreases |ps|
  {
    if ps == [] then s else RemoveAll(RemoveBracketed(s, ps[0].0, ps[0].1), ps[1..])
  }

  /** No opening bracket is followed, anywhere later, by its closing bracket:
      after the first opening bracket there is no closing one. */
  predicate NoPair(s: string, open: char, close: char) {
    s == [] || (if s[0] == open then close !in s[1..] else NoPair(s[1..], open, close))
  }

  predicate NoPairs(s: string, ps: seq<(char, char)>) {
    ps == [] || (NoPair(s, ps[0].0, ps[0].1) && NoPairs(s, ps[1..]))
  }

  /** stripDecorations: every bracketed decoration is gone and the result is trimmed. */
  function StripDecorations(value: string): (r: string)
    ensures NoPairs(r, Brackets)
    ensures IsTrimmed(r)
    ensures value == [] ==> r == []
  {
    if value == [] then []
    else
      var removed := RemoveAll(value, Brackets);
      RemoveAllNoPairs(value, Brackets);
      TrimKeepsNoPairs(removed, Brackets);
      Trim(removed)
  }

  lemma {:induction false} RemoveChars(s: string, open: char, close: char)
    requires open != close
    ensures forall c :: c in RemoveBracketed(s, open, close) ==> c in s
    decreases |s|
  {
    if s != [] {
      if s[0] == open && close in s[1..] {
        RemoveChars(s[1 + FirstIndex(s[1..], close) + 1..], open, close);
      } else {
        RemoveChars(s[1..], open, close);
      }
    }
  }

  lemma {:induction false} NoCloseNoPair(s: string, open: char, close: char)
    requires close !in s
    ensures NoPair(s, open, close)
    decreases |s|
  {
    if s != [] {
      NoCloseNoPair(s[1..], open, close);
    }
  }

  lemma {:induction false} NoPairSuffix(s: string, n: nat, open: char, close: char)
    requires n <= |s| && NoPair(s, open, close)
    ensures NoPair(s[n..], open, close)
    decreases n
  {
    if n > 0 {
      if s[0] == open {
        NoCloseNoPair(s[1..], open, close);
      }
      NoPairSuffix(s[1..], n - 1, open, close);
      assert s[1..][n - 1..] == s[n..];
    }
  }

  lemma {:induction false} NoPairPrefix(s: string, n: nat, open: char, close: char)
    requires n <= |s| && NoPair(s, open, close)
    ensures NoPair(s[..n], open, close)
    decreases n
  {
    if n > 0 {
      var t := s[..n];
      assert t[1..] == s[1..][..n - 1];
      if s[0] == open {
        assert forall x :: x in t[1..] ==> x in s[1..];
      } else {
        NoPairPrefix(s[1..], n - 1, open, close);
      }
    }
  }

  /** A pass leaves no pair of its own bracket style. */
  lemma {:induction false} RemoveNoPair(s: string, open: char, close: char)
    requires open != close
    ensures NoPair(RemoveBracketed(s, open, close), open, close)
    decreases |s|
  {
    if s != [] {
      if s[0] == open && close in s[1..] {
        RemoveNoPair(s[1 + FirstIndex(s[1..], close) + 1..], open, close);
      } else {
        var rest := RemoveBracketed(s[1..], open, close);
        RemoveNoPair(s[1..], open, close);
        RemoveChars(s[1..], open, close);
        assert ([s[0]] + rest)[1..] == rest;
      }
    }
  }

  /** A pass for one style never creates a pair of another style. */
  lemma {:induction false} RemoveKeepsNoPair(s: string, open: char, close: char, o: char, c: char)
    requires open != close && NoPair(s, o, c)
    ensures NoPair(RemoveBracketed(s, open, close), o, c)
    decreases |s|
  {
    if s != [] {
      if s[0] == open && close in s[1..] {
        var n := 1 + FirstIndex(s[1..], close) + 1;
        NoPairSuffix(s, n, o, c);
        RemoveKeepsNoPair(s[n..], open, close, o, c);
      } else {
        var rest := RemoveBracketed(s[1..], open, close);
        assert ([s[0]] + rest)[1..] == rest;
        if s[0] == o {
          RemoveChars(s[1..], open, close);
        } else {
          RemoveKeepsNoPair(s[1..], open, close, o, c);
        }
      }
    }
  }

  lemma {:induction false} RemoveAllKeepsNoPair(s: string, ps: seq<(char, char)>, o: char, c: char)
    requires DistinctEnds(ps) && NoPair(s, o, c)
    ensures NoPair(RemoveAll(s, ps), o, c)
    decreases |ps|
  {
    if ps != [] {
      RemoveKeepsNoPair(s, ps[0].0, ps[0].1, o, c);
      RemoveAllKeepsNoPair(RemoveBracketed(s, ps[0].0, ps[0].1), ps[1..], o, c);
    }
  }

  lemma {:induction false} RemoveAllNoPairs(s: string, ps: seq<(char, char)>)
    requires DistinctEnds(ps)
    ensures NoPairs(RemoveAll(s, ps), ps)
    decreases |ps|
  {
    if ps != [] {
      var first := RemoveBracketed(s, ps[0].0, ps[0].1);
      RemoveNoPair(s, ps[0].0, ps[0].1);
      RemoveAllKeepsNoPair(first, ps[1..], ps[0].0, ps[0].1);
      RemoveAllNoPairs(first, ps[1..]);
    }
  }

  lemma {:induction false} TrimKeepsNoPairs(s: string, ps: seq<(char, char)>)
    requires NoPairs(s, ps)
    ensures NoPairs(Trim(s), ps)
    decreases |ps|
  {
    if ps != [] {
      var i, j := TrimSlice(s);
      NoPairSuffix(s, i, ps[0].0, ps[0].1);
      NoPairPrefix(s[i..], j - i, ps[0].0, ps[0].1);
      assert s[i..][..j - i] == s[i..j];
      TrimKeepsNoPairs(s, ps[1..]);
    }
  }

  /** Without a pair to remove, a pass changes nothing. */
  lemma {:induction false} RemoveIdentity(s: string, open: char, close: char)
    requires open != close && NoPair(s, open, close)
    ensures RemoveBracketed(s, open, close) == s
    decreases |s|
  {
    if s != [] {
      if s[0] == open {
        NoCloseNoPair(s[1..], open, close);
      }
      RemoveIdentity(s[1..], open, close);
    }
  }

  lemma {:induction false} RemoveAllIdentity(s: string, ps: seq<(char, char)>)
    requires DistinctEnds(ps) && NoPairs(s, ps)
    ensures RemoveAll(s, ps) == s
    decreases |ps|
  {
    if ps != [] {
      RemoveIdentity(s, ps[0].0, ps[0].1);
      RemoveAllIdentity(s, ps[1..]);
    }
  }

  /** Stripping twice is stripping once. */
  lemma StripIdempotent(value: string)
    ensures StripDecorations(StripDecorations(value)) == StripDecorations(value)
  {
    var once := StripDecorations(value);
    if once != [] {
      RemoveAllIdentity(once, Brackets);
      TrimOfTrimmed(once);
    }
  }

  /** A trimmed name with no bracket pair is its own stripped form. */
  lemma StripUndecorated(value: string)
    requires IsTrimmed(value) && NoPairs(value, Brackets)
    ensures StripDecorations(value) == value
  {
    if value != [] {
      RemoveAllIdentity(value, Brackets);
      TrimOfTrimmed(value);
    }
  }

  // ------------------------------------------------ normalizeName

  /** The class [\s\-_,.'"] normalizeName deletes. */
  predicate IsNameSeparator(c: char) {
    IsWhitespace(c) || c == '-' || c == '_' || c == ',' || c == '.' || c == '\'' || c == '"'
  }

  predicate IsUpperAscii(c: char) { 'A' <= c <= 'Z' }

  /** golf|country|club|course|gc|cc, tried in this order at each position. */
  const GolfWords: seq<string> := ["golf", "country", "club", "course", "gc", "cc"]

  /** normalizeName: strip decorations, lower-case, delete separators and the golf
      vocabulary. The key used for every similarity comparison. */
  function NormalizeName(value: string): (r: string)
    ensures forall c :: c in r ==> !IsNameSeparator(c) && !IsUpperAscii(c)
    ensures StripDecorations(value) == [] ==> r == []
  {
    if value == [] then []
    else
      var lowered := ToLowerAscii(StripDecorations(value));
      var compact := MapChars(lowered, IsNameSeparator, "");
      NormalizeNameChars(lowered, compact);
      ReplaceAll(compact, GolfWords, "")
  }

  lemma NormalizeNameChars(lowered: string, compact: string)
    requires forall k :: 0 <= k < |lowered| ==> !IsUpperAscii(lowered[k])
    requires compact == MapChars(lowered, IsNameSeparator, "")
    ensures forall c :: c in ReplaceAll(compact, GolfWords, "") ==> !IsNameSeparator(c) && !IsUpperAscii(c)
    ensures lowered == [] ==> ReplaceAll(compact, GolfWords, "") == []
  {
    forall c | c in ReplaceAll(compact, GolfWords, "")
      ensures !IsNameSeparator(c) && !IsUpperAscii(c)
    {
      ReplaceAllChars(compact, GolfWords, "", c);
      MapCharsChars(lowered, IsNameSeparator, "", c);
    }
  }

  /** A name already in normal form: lower case, no separators, no bracket pair and
      no golf vocabulary. */
  predicate IsNormalName(value: string) {
    && value != []
    && (forall k :: 0 <= k < |value| ==> !IsNameSeparator(value[k]) && !IsUpperAscii(value[k]))
    && NoPairs(value, Brackets)
    && ContainsNone(value, GolfWords)
  }

  /** A name already in normal form normalises to itself. */
  lemma NormalizeNameOfNormal(value: string)
    requires IsNormalName(value)
    ensures NormalizeName(value) == value
  {
    NormalizeNameStages(value);
    StripLowerIdentity(value);
    CompactIdentity(value);
  }

  lemma StripLowerIdentity(value: string)
    requires IsNormalName(value)
    ensures ToLowerAscii(StripDecorations(value)) == value
  {
    assert IsTrimmed(value) by {
      assert !IsNameSeparator(value[0]) && !IsNameSeparator(value[|value| - 1]);
    }
    StripUndecorated(value);
    LowerIdentity(value);
  }

  lemma CompactIdentity(value: string)
    requires IsNormalName(value)
    ensures ReplaceAll(MapChars(value, IsNameSeparator, ""), GolfWords, "") == value
  {
    MapCharsIdentity(value, IsNameSeparator, "");
    ReplaceAllAbsent(value, GolfWords, "");
  }

  lemma NormalizeNameStages(value: string)
    requires value != []
    ensures NormalizeName(value) == ReplaceAll(MapChars(ToLowerAscii(StripDecorations(value)), IsNameSeparator, ""), GolfWords, "")
  {
  }

  lemma LowerIdentity(s: string)
    requires forall k :: 0 <= k < |s| ==> !IsUpperAscii(s[k])
    ensures ToLowerAscii(s) == s
  {
  }

  lemma {:induction false} MapCharsIdentity(s: string, inClass: char -> bool, rep: string)
    requires forall k :: 0 <= k < |s| ==> !inClass(s[k])
    ensures MapChars(s, inClass, rep) == s
    decreases |s|
  {
    if s != [] {
      MapCharsIdentity(s[1..], inClass, rep);
    }
  }

  // ------------------------------------------------ normalizeRomaji

  /** Outside the class [a-z0-9\s] normalizeRomaji keeps. */
  predicate NotRomajiChar(c: char) {
    !('a' <= c <= 'z' || IsDigit(c) || IsWhitespace(c))
  }

  /** What normalizeRomaji can return: lower-case letters, digits and spaces. */
  predicate IsRomajiOutput(c: char) {
    'a' <= c <= 'z' || IsDigit(c) || c == ' '
  }

  /** normalizeRomaji: the transliteration (a parameter here) lower-cased, every
      character outside [a-z0-9\s] turned into a space, runs of white space
      collapsed and the ends trimmed. */
  function NormalizeRomaji(value: string, toRomaji: string -> string): (r: string)
    ensures forall c :: c in r ==> IsRomajiOutput(c)
    ensures SingleSpaced(r)
  {
    if value == [] then []
    else
      var lowered := ToLowerAscii(toRomaji(value));
      var mapped := MapChars(lowered, NotRomajiChar, " ");
      RomajiChars(lowered, mapped);
      CollapseTrimSpaced(mapped);
      Trim(CollapseWhitespace(mapped))
  }

  lemma RomajiChars(lowered: string, mapped: string)
    requires forall k :: 0 <= k < |lowered| ==> !IsUpperAscii(lowered[k])
    requires mapped == MapChars(lowered, NotRomajiChar, " ")
    ensures forall c :: c in Trim(CollapseWhitespace(mapped)) ==> IsRomajiOutput(c)
  {
    var collapsed := CollapseWhitespace(mapped);
    forall c | c in Trim(collapsed)
      ensures IsRomajiOutput(c)
    {
      TrimChars(collapsed, c);
      if IsWhitespace(c) {
        CollapsedChars(collapsed, c);
      } else {
        CollapseChars(mapped, c);
        MapCharsChars(lowered, NotRomajiChar, " ", c);
      }
    }
  }

  lemma TrimChars(s: string, c: char)
    requires c in Trim(s)
    ensures c in s
  {
    var i, j := TrimSlice(s);
  }

  lemma {:induction false} CollapsedChars(s: string, c: char)
    requires Collapsed(s) && c in s && IsWhitespace(c)
    ensures c == ' '
    decreases |s|
  {
    if s[0] != c {
      CollapsedChars(s[1..], c);
    }
  }

  /** A transliteration already in normal form is returned unchanged. */
  lemma NormalizeRomajiOfNormal(value: string, toRomaji: string -> string)
    requires value != []
    requires forall k :: 0 <= k < |toRomaji(value)| ==> IsRomajiOutput(toRomaji(value)[k])
    requires SingleSpaced(toRomaji(value))
    ensures NormalizeRomaji(value, toRomaji) == toRomaji(value)
  {
    var t := toRomaji(value);
    LowerIdentity(t);
    MapCharsIdentity(t, NotRomajiChar, " ");
    CollapseOfSpaced(t);
    TrimOfTrimmed(t);
  }

  // ------------------------------------------------ mapRomajiGolfTerms

  /** The six replacements of mapRomajiGolfTerms, in order: each pattern list is one
      alternation, applied globally. */
  const RomajiRules: seq<(seq<string>, string)> := [
    (["gorufu"], "golf"),
    (["koosu", "kosu", "ko-su"], "course"),
    (["kantorii", "kantori", "kantory"], "country"),
    (["kurabu"], "club"),
    (["countryclub"], "country club"),
    (["golfcourse"], "golf course")
  ]

  function ApplyRules(s: string, rules: seq<(seq<string>, string)>): string
    decreases |rules|
  {
    if rules == [] then s else ApplyRules(ReplaceAll(s, rules[0].0, rules[0].1), rules[1..])
  }

  /** mapRomajiGolfTerms: the romaji golf vocabulary turned into English, then white
      space collapsed and trimmed. */
  function MapRomajiGolfTerms(value: string): (r: string)
    ensures SingleSpaced(r)
  {
    if value == [] then []
    else
      var replaced := ApplyRules(value, RomajiRules);
      CollapseTrimSpaced(replaced);
      Trim(CollapseWhitespace(replaced))
  }

  predicate FreeOfRules(s: string, rules: seq<(seq<string>, string)>) {
    rules == [] || (ContainsNone(s, rules[0].0) && FreeOfRules(s, rules[1..]))
  }

  lemma {:induction false} ApplyRulesAbsent(s: string, rules: seq<(seq<string>, string)>)
    requires FreeOfRules(s, rules)
    ensures ApplyRules(s, rules) == s
    decreases |rules|
  {
    if rules != [] {
      ReplaceAllAbsent(s, rules[0].0, rules[0].1);
      ApplyRulesAbsent(s, rules[1..]);
    }
  }

  /** Text that holds none of the romaji vocabulary and is single-spaced (English
      names, for example) passes through unchanged. */
  lemma MapRomajiIdentity(value: string)
    requires SingleSpaced(value) && FreeOfRules(value, RomajiRules)
    ensures MapRomajiGolfTerms(value) == value
  {
    if value != [] {
      ApplyRulesAbsent(value, RomajiRules);
      CollapseOfSpaced(value);
      TrimOfTrimmed(value);
    }
  }

  /** Every pattern of the rules is non-empty and holds no space. */
  predicate SpaceFreeRules(rules: seq<(seq<string>, string)>) {
    forall i :: 0 <= i < |rules| ==> SpaceFreePatterns(rules[i].0)
  }

  lemma RomajiRulesSpaceFree()
    ensures SpaceFreeRules(RomajiRules)
  {
  }

  /** The rules rewrite a word between two spaces on its own, and leave text free of
      their patterns on either side alone. */
  lemma {:induction false} ApplyRulesAroundWord(a: string, w: string, b: string, rules: seq<(seq<string>, string)>)
    requires SpaceFreeRules(rules) && FreeOfRules(a, rules) && FreeOfRules(b, rules)
    ensures ApplyRules(a + " " + w + " " + b, rules) == a + " " + ApplyRules(w, rules) + " " + b
    decreases |rules|
  {
    if rules != [] {
      var (pats, rep) := rules[0];
      ReplaceAllAroundWord(a, w, b, pats, rep);
      ReplaceAllAbsent(a, pats, rep);
      ReplaceAllAbsent(b, pats, rep);
      ApplyRulesAroundWord(a, ReplaceAll(w, pats, rep), b, rules[1..]);
    }
  }

  /** Surrounding text that the rules leave alone and that needs no clean-up. */
  predicate PlainContext(a: string) {
    a != [] && SingleSpaced(a) && FreeOfRules(a, RomajiRules)
  }

  /** A romaji word between plain text is replaced by what the rules make of it. */
  lemma {:induction false} MapRomajiAroundWord(a: string, w: string, b: string)
    requires PlainContext(a) && PlainContext(b)
    requires ApplyRules(w, RomajiRules) != [] && SingleSpaced(ApplyRules(w, RomajiRules))
    ensures MapRomajiGolfTerms(a + " " + w + " " + b) == a + " " + ApplyRules(w, RomajiRules) + " " + b
  {
    var m := ApplyRules(w, RomajiRules);
    RomajiRulesSpaceFree();
    ApplyRulesAroundWord(a, w, b, RomajiRules);
    SingleSpacedJoin(a, m);
    SingleSpacedJoin(a + " " + m, b);
    CollapseOfSpaced(a + " " + m + " " + b);
    TrimOfTrimmed(a + " " + m + " " + b);
  }

  // ------------------------------------------------ buildSearchQueries

  /** The direction words of /(東|西|南|北|中|OUT|IN)コース.*$/i, lower-cased: the
      case-insensitive comparison only folds ASCII letters here. */
  const Directions: seq<string> := ["東", "西", "南", "北", "中", "out", "in"]

  /** t starts, ignoring ASCII case, with one of the words ds followed by コース. */
  predicate StartsWithCourseWord(t: string, ds: seq<string>) {
    ds != [] && (StartsWith(ToLowerAscii(t), ds[0] + "コース") || StartsWithCourseWord(t, ds[1..]))
  }

  predicate NoLineTerminator(t: string) {
    t == [] || (!IsLineTerminator(t[0]) && NoLineTerminator(t[1..]))
  }

  /** t starts with a direction word and コース, and no line terminator follows,
      so ".*$" reaches the end. */
  predicate CourseTailAt(t: string) {
    StartsWithCourseWord(t, Directions) && NoLineTerminator(t)
  }

  /** s.replace(/(東|西|南|北|中|OUT|IN)コース.*$/i, ''): everything from the leftmost
      position where a course-name tail begins is cut. */
  function CutCourseTail(s: string): string
    decreases |s|
  {
    if s == [] || CourseTailAt(s) then [] else [s[0]] + CutCourseTail(s[1..])
  }

  /** The cut keeps a prefix of the name. */
  lemma {:induction false} CutCourseTailPrefix(s: string)
    ensures |CutCourseTail(s)| <= |s| && CutCourseTail(s) == s[..|CutCourseTail(s)|]
    decreases |s|
  {
    if s != [] && !CourseTailAt(s) {
      CutCourseTailPrefix(s[1..]);
      var rest := CutCourseTail(s[1..]);
      assert [s[0]] + s[1..][..|rest|] == s[..|rest| + 1];
    }
  }

  /** What is cut away, if anything, is a course tail. */
  lemma {:induction false} CutCourseTailAtTail(s: string)
    ensures |CutCourseTail(s)| < |s| ==> CourseTailAt(s[|CutCourseTail(s)|..])
    decreases |s|
  {
    if s != [] && !CourseTailAt(s) {
      CutCourseTailAtTail(s[1..]);
      var rest := CutCourseTail(s[1..]);
      assert |rest| < |s[1..]| ==> s[1..][|rest|..] == s[|rest| + 1..];
    }
  }

  /** No course tail starts before the cut: the match is the leftmost one. */
  lemma {:induction false} CutCourseTailLeftmost(s: string, k: nat)
    requires k < |CutCourseTail(s)|
    ensures k < |s| && !CourseTailAt(s[k..])
    decreases |s|
  {
    CutCourseTailPrefix(s);
    if k > 0 {
      CutCourseTailLeftmost(s[1..], k - 1);
      assert s[k..] == s[1..][k - 1..];
    }
  }

  /** The suffixes withoutSuffix removes, as one alternation. */
  const ClubSuffixes: seq<string> := ["ゴルフ倶楽部", "ゴルフクラブ", "ゴルフ場", "カントリークラブ", "カントリー倶楽部"]

  predicate IsQuerySeparator(c: char) { c == '・' || c == '/' }

  predicate AllTrimmed(qs: seq<string>) {
    forall k :: 0 <= k < |qs| ==> IsTrimmed(qs[k])
  }

  /** "if (x) queries.push(x)" on the list of variants. */
  function Keep(acc: seq<string>, x: string): (r: seq<string>)
    ensures AllTrimmed(acc) && IsTrimmed(x) ==> AllTrimmed(r)
    ensures |r| >= |acc| && (|acc| > 0 ==> r[0] == acc[0])
  {
    if x == [] then acc else acc + [x]
  }

  /** The name with ・ and / turned into spaces, single-spaced. */
  function CleanedQuery(raw: string): (r: string)
    ensures IsTrimmed(r)
  {
    Trim(CollapseWhitespace(MapChars(raw, IsQuerySeparator, " ")))
  }

  function WithoutCourseQuery(raw: string): (r: string)
    ensures IsTrimmed(r)
  {
    Trim(CutCourseTail(raw))
  }

  function WithoutSuffixQuery(raw: string): (r: string)
    ensures IsTrimmed(r)
  {
    Trim(ReplaceAll(raw, ClubSuffixes, ""))
  }

  /** The romaji form of the kana name with golf vocabulary in English. */
  function RomajiQuery(kana: string, toRomaji: string -> string): (r: string)
    ensures IsTrimmed(r)
  {
    MapRomajiGolfTerms(NormalizeRomaji(kana, toRomaji))
  }

  function NameVariants(raw: string): (r: seq<string>)
    requires IsTrimmed(raw)
    ensures AllTrimmed(r)
    ensures raw == [] <==> r == []
    ensures raw != [] ==> r[0] == raw
  {
    if raw == [] then []
    else Keep(Keep(Keep([raw], CleanedQuery(raw)), WithoutCourseQuery(raw)), WithoutSuffixQuery(raw))
  }

  function KanaVariants(kana: string, toRomaji: string -> string): (r: seq<string>)
    requires IsTrimmed(kana)
    ensures AllTrimmed(r)
    ensures kana == [] <==> r == []
  {
    if kana == [] then [] else Keep([kana], RomajiQuery(kana, toRomaji))
  }

  /** Every variant buildSearchQueries adds to its set, in insertion order: the
      stripped name, the name with ・ and / turned into spaces, the name without a
      course tail, the name without a club suffix; then the stripped kana name and
      its romaji with golf vocabulary in English. Empty variants are skipped. */
  function QueryVariants(name: string, nameKana: string, toRomaji: string -> string): (r: seq<string>)
    ensures AllTrimmed(r)
    ensures StripDecorations(name) != [] ==> r != [] && r[0] == StripDecorations(name)
    ensures StripDecorations(name) == [] && StripDecorations(nameKana) == [] ==> r == []
  {
    NameVariants(StripDecorations(name)) + KanaVariants(StripDecorations(nameKana), toRomaji)
  }

  /** Array.from(set).map(trim).filter(length >= 2). */
  function TrimFilter(qs: seq<string>): seq<string> {
    if qs == [] then []
    else
      var t := Trim(qs[0]);
      (if |t| >= 2 then [t] else []) + TrimFilter(qs[1..])
  }

  /** buildSearchQueries: the text searches tried, in order, for one course. They
      are distinct, each at least two characters long, are exactly the variants that
      long, and start with the stripped name when it is long enough; a course with
      neither a name nor a kana name yields no query. */
  /** A variant of the names at least two characters long. */
  predicate IsSearchQuery(q: string, name: string, nameKana: string, toRomaji: string -> string) {
    q in QueryVariants(name, nameKana, toRomaji) && |q| >= 2
  }

  function BuildSearchQueries(name: string, nameKana: string, toRomaji: string -> string): (r: seq<string>)
    ensures Distinct(r)
    ensures forall q :: q in r <==> IsSearchQuery(q, name, nameKana, toRomaji)
    ensures |StripDecorations(name)| >= 2 ==> r != [] && r[0] == StripDecorations(name)
    ensures StripDecorations(name) == [] && StripDecorations(nameKana) == [] ==> r == []
  {
    var vs := QueryVariants(name, nameKana, toRomaji);
    var added := AddAll([], vs);
    AddAllProps([], vs);
    AddAllTrimmed(vs);
    TrimFilterMembers(added);
    TrimFilterDistinct(added);
    if vs != [] && |vs[0]| >= 2 then
      AddAllHead(vs);
      TrimFilterHead(added);
      TrimFilter(added)
    else if vs != [] then
      AddAllHead(vs);
      TrimFilter(added)
    else
      TrimFilter(added)
  }

  lemma {:induction false} TrimFilterMembers(qs: seq<string>)
    requires AllTrimmed(qs)
    ensures forall q :: q in TrimFilter(qs) <==> q in qs && |q| >= 2
    decreases |qs|
  {
    if qs != [] {
      TrimOfTrimmed(qs[0]);
      TrimFilterMembers(qs[1..]);
      assert forall q :: q in qs <==> q == qs[0] || q in qs[1..];
    }
  }

  lemma {:induction false} TrimFilterDistinct(qs: seq<string>)
    requires AllTrimmed(qs) && Distinct(qs)
    ensures Distinct(TrimFilter(qs))
    decreases |qs|
  {
    if qs != [] {
      TrimOfTrimmed(qs[0]);
      TrimFilterMembers(qs[1..]);
      TrimFilterDistinct(qs[1..]);
      assert qs[0] !in qs[1..] by {
        forall k | 0 <= k < |qs| - 1
          ensures qs[1..][k] != qs[0]
        {
          assert qs[1..][k] == qs[k + 1];
        }
      }
    }
  }

  lemma TrimFilterHead(qs: seq<string>)
    requires qs != [] && IsTrimmed(qs[0]) && |qs[0]| >= 2
    ensures TrimFilter(qs) != [] && TrimFilter(qs)[0] == qs[0]
  {
    TrimOfTrimmed(qs[0]);
    assert TrimFilter(qs) == [qs[0]] + TrimFilter(qs[1..]);
  }

  lemma AddAllTrimmed(vs: seq<string>)
    requires AllTrimmed(vs)
    ensures AllTrimmed(AddAll([], vs))
  {
    var added := AddAll([], vs);
    AddAllProps([], vs);
    forall k | 0 <= k < |added|
      ensures IsTrimmed(added[k])
    {
      assert added[k] in vs;
    }
  }

  lemma AddAllHead(vs: seq<string>)
    requires vs != []
    ensures AddAll([], vs) != [] && AddAll([], vs)[0] == vs[0]
  {
    AddAllCons([], vs[0], vs[1..]);
    assert vs == [vs[0]] + vs[1..];
    assert Add([], vs[0]) == [vs[0]];
    AddAllProps([vs[0]], vs[1..]);
  }
}
