/** The English words the romaji golf terms become, and how they are spelled
    between spaces. */
module RomajiSpelling {
  import opened JsText

  /** A word of lower-case letters is single-spaced. */
  lemma {:induction false} LowerWordSpaced(s: string)
    requires forall k :: 0 <= k < |s| ==> 'a' <= s[k] <= 'z'
    ensures SingleSpaced(s)
    decreases |s|
  {
    if s != [] {
      LowerWordSpaced(s[1..]);
    }
  }

  /** The one-word English terms are single-spaced. */
  lemma WordSpaced(e: string)
    requires e == "golf" || e == "course" || e == "country" || e == "club"
    ensures SingleSpaced(e)
  {
    LowerWordSpaced(e);
  }

  /** So are the two-word ones. */
  lemma PairSpaced(e: string)
    requires e == "country club" || e == "golf course"
    ensures SingleSpaced(e)
  {
    if e == "country club" {
      WordSpaced("country");
      WordSpaced("club");
      assert e == "country" + " " + "club";
      SingleSpacedJoin("country", "club");
    } else {
      WordSpaced("golf");
      WordSpaced("course");
      assert e == "golf" + " " + "course";
      SingleSpacedJoin("golf", "course");
    }
  }

  /** Each term between spaces, spelled as one literal or as three. */
  lemma Spelled(a: string, b: string)
    ensures a + " gorufu " + b == a + " " + "gorufu" + " " + b
    ensures a + " koosu " + b == a + " " + "koosu" + " " + b
    ensures a + " kantorii " + b == a + " " + "kantorii" + " " + b
    ensures a + " kurabu " + b == a + " " + "kurabu" + " " + b
    ensures a + " countryclub " + b == a + " " + "countryclub" + " " + b
    ensures a + " golfcourse " + b == a + " " + "golfcourse" + " " + b
    ensures a + " golf " + b == a + " " + "golf" + " " + b
    ensures a + " course " + b == a + " " + "course" + " " + b
    ensures a + " country " + b == a + " " + "country" + " " + b
    ensures a + " club " + b == a + " " + "club" + " " + b
    ensures a + " country club " + b == a + " " + "country club" + " " + b
    ensures a + " golf course " + b == a + " " + "golf course" + " " + b
  {
  }
}

/** The six replacements of mapRomajiGolfTerms, word by word: each romaji golf term
    becomes its English word, also with plain text on either side. */
module RomajiTerms {
  import opened JsText
  import opened SyncNames
  import opened RomajiSpelling

  /** The six replacements applied one after the other. */
  lemma {:induction false} ApplyRomajiSteps(s: string, s1: string, s2: string, s3: string, s4: string, s5: string, s6: string)
    requires s1 == ReplaceAll(s, ["gorufu"], "golf")
    requires s2 == ReplaceAll(s1, ["koosu", "kosu", "ko-su"], "course")
    requires s3 == ReplaceAll(s2, ["kantorii", "kantori", "kantory"], "country")
    requires s4 == ReplaceAll(s3, ["kurabu"], "club")
    requires s5 == ReplaceAll(s4, ["countryclub"], "country club")
    requires s6 == ReplaceAll(s5, ["golfcourse"], "golf course")
    ensures ApplyRules(s, RomajiRules) == s6
  {
    var r := RomajiRules;
    assert ApplyRules(s, r) == ApplyRules(s1, r[1..]);
    assert ApplyRules(s1, r[1..]) == ApplyRules(s2, r[2..]) by { assert r[1..][1..] == r[2..]; }
    assert ApplyRules(s2, r[2..]) == ApplyRules(s3, r[3..]) by { assert r[2..][1..] == r[3..]; }
    assert ApplyRules(s3, r[3..]) == ApplyRules(s4, r[4..]) by { assert r[3..][1..] == r[4..]; }
    assert ApplyRules(s4, r[4..]) == ApplyRules(s5, r[5..]) by { assert r[4..][1..] == r[5..]; }
    assert ApplyRules(s5, r[5..]) == s6 by { assert r[5..][1..] == []; }
  }

  /** Each rule leaves alone a word that lacks a letter all its patterns hold. */
  lemma GolfKeeps(s: string, c: char)
    requires (c == 'g' || c == 'r') && c !in s
    ensures ReplaceAll(s, ["gorufu"], "golf") == s
  {
    ReplaceAllMissingChar(s, ["gorufu"], "golf");
  }

  lemma CourseKeeps(s: string, c: char)
    requires (c == 's' || c == 'k') && c !in s
    ensures ReplaceAll(s, ["koosu", "kosu", "ko-su"], "course") == s
  {
    ReplaceAllMissingChar(s, ["koosu", "kosu", "ko-su"], "course");
  }

  lemma CountryKeeps(s: string, c: char)
    requires (c == 'n' || c == 'k') && c !in s
    ensures ReplaceAll(s, ["kantorii", "kantori", "kantory"], "country") == s
  {
    ReplaceAllMissingChar(s, ["kantorii", "kantori", "kantory"], "country");
  }

  lemma ClubKeeps(s: string, c: char)
    requires (c == 'b' || c == 'k') && c !in s
    ensures ReplaceAll(s, ["kurabu"], "club") == s
  {
    ReplaceAllMissingChar(s, ["kurabu"], "club");
  }

  lemma CountryClubKeeps(s: string, c: char)
    requires (c == 'y' || c == 'b') && c !in s
    ensures ReplaceAll(s, ["countryclub"], "country club") == s
  {
    ReplaceAllMissingChar(s, ["countryclub"], "country club");
  }

  lemma GolfCourseKeeps(s: string, c: char)
    requires (c == 'e' || c == 'g') && c !in s
    ensures ReplaceAll(s, ["golfcourse"], "golf course") == s
  {
    ReplaceAllMissingChar(s, ["golfcourse"], "golf course");
  }

  /** A word that is a whole pattern of a rule is replaced outright. */
  lemma {:induction false} ReplaceWhole(w: string, pats: seq<string>, rep: string, k: nat)
    requires FirstPrefix(w, pats) == Some(k) && k < |pats| && pats[k] == w
    ensures ReplaceAll(w, pats, rep) == rep
  {
    assert w + [] == w;
    ReplaceAllMatch(w, [], pats, rep, k);
  }

  lemma WholeWordMatches()
    ensures FirstPrefix("gorufu", ["gorufu"]) == Some(0)
    ensures FirstPrefix("kurabu", ["kurabu"]) == Some(0)
    ensures FirstPrefix("countryclub", ["countryclub"]) == Some(0)
    ensures FirstPrefix("golfcourse", ["golfcourse"]) == Some(0)
  {
  }

  lemma GolfLetters()
    ensures 's' !in "golf" && 'n' !in "golf" && 'b' !in "golf" && 'y' !in "golf" && 'e' !in "golf"
  {
  }

  /** Rule 1: gorufu becomes golf. */
  lemma RuleGolf()
    ensures ApplyRules("gorufu", RomajiRules) == "golf"
  {
    GolfLetters();
    WholeWordMatches();
    ReplaceWhole("gorufu", ["gorufu"], "golf", 0);
    CourseKeeps("golf", 's');
    CountryKeeps("golf", 'n');
    ClubKeeps("golf", 'b');
    CountryClubKeeps("golf", 'y');
    GolfCourseKeeps("golf", 'e');
    ApplyRomajiSteps("gorufu", "golf", "golf", "golf", "golf", "golf", "golf");
  }

  lemma CourseLetters()
    ensures 'g' !in "koosu" && 'g' !in "kosu"
    ensures 'n' !in "course" && 'b' !in "course" && 'y' !in "course" && 'g' !in "course"
  {
  }

  lemma KoosuMatch()
    ensures FirstPrefix("koosu", ["koosu", "kosu", "ko-su"]) == Some(0)
    ensures FirstPrefix("kosu", ["koosu", "kosu", "ko-su"]) == Some(1)
  {
  }

  /** Rule 2: koosu and kosu become course. */
  lemma RuleCourse()
    ensures ApplyRules("koosu", RomajiRules) == "course"
    ensures ApplyRules("kosu", RomajiRules) == "course"
  {
    CourseLetters();
    KoosuMatch();
    GolfKeeps("koosu", 'g');
    GolfKeeps("kosu", 'g');
    ReplaceWhole("koosu", ["koosu", "kosu", "ko-su"], "course", 0);
    ReplaceWhole("kosu", ["koosu", "kosu", "ko-su"], "course", 1);
    CountryKeeps("course", 'n');
    ClubKeeps("course", 'b');
    CountryClubKeeps("course", 'y');
    GolfCourseKeeps("course", 'g');
    ApplyRomajiSteps("koosu", "koosu", "course", "course", "course", "course", "course");
    ApplyRomajiSteps("kosu", "kosu", "course", "course", "course", "course", "course");
  }

  lemma CountryLetters()
    ensures 'g' !in "kantorii" && 'g' !in "kantori" && 'g' !in "kantory"
    ensures 's' !in "kantorii" && 's' !in "kantori" && 's' !in "kantory"
    ensures 'b' !in "country" && 'g' !in "country"
  {
  }

  lemma KantoriiMatch()
    ensures FirstPrefix("kantorii", ["kantorii", "kantori", "kantory"]) == Some(0)
    ensures FirstPrefix("kantori", ["kantorii", "kantori", "kantory"]) == Some(1)
    ensures FirstPrefix("kantory", ["kantorii", "kantori", "kantory"]) == Some(2)
  {
    assert "kantory"[..7][6] != "kantori"[6];
  }

  lemma CountryWord(w: string, k: nat)
    requires k < 3 && w == ["kantorii", "kantori", "kantory"][k]
    requires FirstPrefix(w, ["kantorii", "kantori", "kantory"]) == Some(k)
    requires 'g' !in w && 's' !in w
    ensures ApplyRules(w, RomajiRules) == "country"
  {
    CountryLetters();
    GolfKeeps(w, 'g');
    CourseKeeps(w, 's');
    ReplaceWhole(w, ["kantorii", "kantori", "kantory"], "country", k);
    ClubKeeps("country", 'b');
    CountryClubKeeps("country", 'b');
    GolfCourseKeeps("country", 'g');
    ApplyRomajiSteps(w, w, w, "country", "country", "country", "country");
  }

  /** Rule 3: kantorii, kantori and kantory become country. */
  lemma RuleCountry()
    ensures ApplyRules("kantorii", RomajiRules) == "country"
    ensures ApplyRules("kantori", RomajiRules) == "country"
    ensures ApplyRules("kantory", RomajiRules) == "country"
  {
    CountryLetters();
    KantoriiMatch();
    CountryWord("kantorii", 0);
    CountryWord("kantori", 1);
    CountryWord("kantory", 2);
  }

  lemma ClubLetters()
    ensures 'g' !in "kurabu" && 's' !in "kurabu" && 'n' !in "kurabu"
    ensures 'y' !in "club" && 'g' !in "club"
  {
  }

  /** Rule 4: kurabu becomes club. */
  lemma RuleClub()
    ensures ApplyRules("kurabu", RomajiRules) == "club"
  {
    ClubLetters();
    GolfKeeps("kurabu", 'g');
    CourseKeeps("kurabu", 's');
    CountryKeeps("kurabu", 'n');
    WholeWordMatches();
    ReplaceWhole("kurabu", ["kurabu"], "club", 0);
    CountryClubKeeps("club", 'y');
    GolfCourseKeeps("club", 'g');
    ApplyRomajiSteps("kurabu", "kurabu", "kurabu", "kurabu", "club", "club", "club");
  }

  lemma CountryClubLetters()
    ensures 'g' !in "countryclub" && 's' !in "countryclub" && 'k' !in "countryclub"
    ensures 'g' !in "country club"
  {
  }

  /** Rule 5: countryclub is split in two words. */
  lemma RuleCountryClub()
    ensures ApplyRules("countryclub", RomajiRules) == "country club"
  {
    CountryClubLetters();
    var w := "countryclub";
    GolfKeeps(w, 'g');
    CourseKeeps(w, 's');
    CountryKeeps(w, 'k');
    ClubKeeps(w, 'k');
    WholeWordMatches();
    ReplaceWhole(w, ["countryclub"], "country club", 0);
    GolfCourseKeeps("country club", 'g');
    ApplyRomajiSteps(w, w, w, w, w, "country club", "country club");
  }

  lemma GolfCourseLetters()
    ensures 'g' !in "olfcourse" && 'k' !in "golfcourse" && 'y' !in "golfcourse"
  {
  }

  /** gorufu does not occur in golfcourse: it differs at the third letter. */
  lemma GolfcourseKeepsGolf()
    ensures ReplaceAll("golfcourse", ["gorufu"], "golf") == "golfcourse"
  {
    GolfCourseLetters();
    assert FirstPrefix("golfcourse", ["gorufu"]) == None by {
      assert "golfcourse"[..6][2] != "gorufu"[2];
    }
    assert "golfcourse"[1..] == "olfcourse";
    GolfKeeps("olfcourse", 'g');
    assert ['g'] + "olfcourse" == "golfcourse";
  }

  /** Rule 6: golfcourse is split in two words. */
  lemma RuleGolfCourse()
    ensures ApplyRules("golfcourse", RomajiRules) == "golf course"
  {
    GolfCourseLetters();
    var w := "golfcourse";
    GolfcourseKeepsGolf();
    CourseKeeps(w, 'k');
    CountryKeeps(w, 'k');
    ClubKeeps(w, 'k');
    CountryClubKeeps(w, 'y');
    WholeWordMatches();
    ReplaceWhole(w, ["golfcourse"], "golf course", 0);
    ApplyRomajiSteps(w, w, w, w, w, w, "golf course");
  }

  /** mapRomajiGolfTerms between plain text: gorufu becomes golf. */
  lemma MapRomajiGorufu(a: string, b: string)
    requires PlainContext(a) && PlainContext(b)
    ensures MapRomajiGolfTerms(a + " gorufu " + b) == a + " golf " + b
  {
    RuleGolf();
    WordSpaced("golf");
    Spelled(a, b);
    MapRomajiAroundWord(a, "gorufu", b);
  }

  /** mapRomajiGolfTerms between plain text: koosu becomes course. */
  lemma MapRomajiKoosu(a: string, b: string)
    requires PlainContext(a) && PlainContext(b)
    ensures MapRomajiGolfTerms(a + " koosu " + b) == a + " course " + b
  {
    RuleCourse();
    WordSpaced("course");
    Spelled(a, b);
    MapRomajiAroundWord(a, "koosu", b);
  }

  /** mapRomajiGolfTerms between plain text: kantorii becomes country. */
  lemma MapRomajiKantorii(a: string, b: string)
    requires PlainContext(a) && PlainContext(b)
    ensures MapRomajiGolfTerms(a + " kantorii " + b) == a + " country " + b
  {
    RuleCountry();
    WordSpaced("country");
    Spelled(a, b);
    MapRomajiAroundWord(a, "kantorii", b);
  }

  /** mapRomajiGolfTerms between plain text: kurabu becomes club. */
  lemma MapRomajiKurabu(a: string, b: string)
    requires PlainContext(a) && PlainContext(b)
    ensures MapRomajiGolfTerms(a + " kurabu " + b) == a + " club " + b
  {
    RuleClub();
    WordSpaced("club");
    Spelled(a, b);
    MapRomajiAroundWord(a, "kurabu", b);
  }

  /** mapRomajiGolfTerms between plain text: countryclub becomes two words. */
  lemma MapRomajiCountryClub(a: string, b: string)
    requires PlainContext(a) && PlainContext(b)
    ensures MapRomajiGolfTerms(a + " countryclub " + b) == a + " country club " + b
  {
    RuleCountryClub();
    PairSpaced("country club");
    Spelled(a, b);
    MapRomajiAroundWord(a, "countryclub", b);
  }

  /** mapRomajiGolfTerms between plain text: golfcourse becomes two words. */
  lemma MapRomajiGolfCourse(a: string, b: string)
    requires PlainContext(a) && PlainContext(b)
    ensures MapRomajiGolfTerms(a + " golfcourse " + b) == a + " golf course " + b
  {
    RuleGolfCourse();
    PairSpaced("golf course");
    Spelled(a, b);
    MapRomajiAroundWord(a, "golfcourse", b);
  }

  /** normalizeRomaji writes no hyphen, so the ko-su alternative of rule 2 never
      occurs in a romaji query, which is always normalized first. */
  lemma NormalizedNeverKoSu(value: string, toRomaji: string -> string)
    ensures !Contains(NormalizeRomaji(value, toRomaji), "ko-su")
  {
    var r := NormalizeRomaji(value, toRomaji);
    assert !IsRomajiOutput('-');
    assert '-' in "ko-su" && '-' !in r;
    MissingCharNotContained(r, "ko-su", '-');
  }
}
