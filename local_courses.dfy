/** The local course catalog of the score-photo page: the records of the catalog file
    read into course results (extractLocalCourses), completed from the merged par
    tables (mergeCourseParData) and searched by keywords (matchCourse). */
module LocalCourses {
  import opened JsText
  import opened ParCsv
  import opened ScoreHelpers

  /** A course as the page works with it; None stands for an absent property. */
  datatype CourseResult = CourseResult(
    id: string,
    name: string,
    nameKana: Option<string>,
    prefecture: Option<string>,
    pars: Option<seq<int>>,
    parSegments: Option<seq<Segment>>,
    parTotal: Option<int>,
    holeCount: Option<int>,
    normalizedName: Option<string>,
    normalizedNameKana: Option<string>,
    normalizedPrefecture: Option<string>,
    normalizedId: Option<string>)

  /** A segment record of the catalog file. A scalar is held as the text String() gives
      it; None stands for null, undefined or, for a list, anything that is not an array. */
  datatype RawSegment = RawSegment(name: Option<string>, pars: Option<seq<string>>)

  /** A course record of the catalog file, under every key the reader looks at. */
  datatype RawCourse = RawCourse(
    courseCode: Option<string>, id: Option<string>, courseId: Option<string>, golfCourseId: Option<string>,
    courseTitle: Option<string>, name: Option<string>, golfCourseName: Option<string>,
    courseKana: Option<string>, nameKana: Option<string>, golfCourseNameKana: Option<string>,
    region: Option<string>, prefecture: Option<string>, prefectureName: Option<string>,
    parList: Option<seq<string>>, pars: Option<seq<string>>,
    parSegments: Option<seq<RawSegment>>,
    parTotal: Option<int>, holes: Option<int>, holeCount: Option<int>)

  /** The catalog file: its records under "entries" or, failing that, "courses". */
  datatype RawCatalog = RawCatalog(entries: Option<seq<RawCourse>>, courses: Option<seq<RawCourse>>)

  /** normalizeKeyword: trimmed and lower-cased. */
  function NormalizeKeyword(value: string): (r: string)
    ensures |r| <= |value|
  {
    ToLowerAscii(Trim(value))
  }

  /** a ?? b ?? ... ?? '': the first value present, even an empty one. */
  function FirstPresent(values: seq<Option<string>>): string {
    if values == [] then [] else if values[0].Some? then values[0].value else FirstPresent(values[1..])
  }

  /** a || b || ... || '': the first value present and not empty. */
  function FirstFilled(values: seq<Option<string>>): (r: string)
    ensures r != [] ==> exists i :: 0 <= i < |values| && values[i] == Some(r)
  {
    if values == [] then []
    else if values[0].Some? && values[0].value != [] then values[0].value
    else FirstFilled(values[1..])
  }

  function Or<T>(o: Option<T>, d: T): T {
    if o.Some? then o.value else d
  }

  // Reading the catalog

  /** values.map(v => parseInt(v, 10)).filter(Number.isFinite). */
  function ParsedValues(values: seq<string>): (r: seq<int>)
    ensures |r| <= |values|
  {
    FilterMap(ParseInt, values)
  }

  /** Numbers written out are read back, all of them and in order. */
  lemma {:induction false} ParsedWritten(values: seq<int>)
    ensures ParsedValues(WriteScores(values)) == values
    decreases |values|
  {
    if values != [] {
      var n := |values|;
      ParsedWritten(values[..n - 1]);
      IntToStringRoundTrip(values[n - 1]);
      assert WriteScores(values)[..n - 1] == WriteScores(values[..n - 1]);
      assert ParsedValues(WriteScores(values)) == ParsedValues(WriteScores(values[..n - 1])) + [values[n - 1]];
      assert values[..n - 1] + [values[n - 1]] == values;
    }
  }

  function RawId(c: RawCourse): string {
    Trim(FirstPresent([c.courseCode, c.id, c.courseId, c.golfCourseId]))
  }

  function RawName(c: RawCourse): string {
    Trim(FirstPresent([c.courseTitle, c.name, c.golfCourseName]))
  }

  function RawKana(c: RawCourse): string {
    FirstFilled([c.courseKana, c.nameKana, c.golfCourseNameKana])
  }

  function RawPrefecture(c: RawCourse): string {
    FirstFilled([c.region, c.prefecture, c.prefectureName])
  }

  /** The pars of a record: parList when it is an array, else pars. */
  function RawPars(c: RawCourse): seq<int> {
    if c.parList.Some? then ParsedValues(c.parList.value)
    else if c.pars.Some? then ParsedValues(c.pars.value)
    else []
  }

  /** A segment as the page shows it: a name and nine pars. */
  predicate GoodSegment(s: Segment) {
    s.name != [] && |s.pars| == 9
  }

  /** A segment record read: kept only with a name and exactly nine readable pars. */
  function ReadSegment(s: RawSegment): (r: Option<Segment>)
    ensures r.Some? <==> Trim(Or(s.name, [])) != [] && |ParsedValues(Or(s.pars, []))| == 9
    ensures r.Some? ==> GoodSegment(r.value) && IsTrimmed(r.value.name)
  {
    var name := Trim(Or(s.name, []));
    var pars := ParsedValues(Or(s.pars, []));
    if name == [] || |pars| != 9 then None else Some(Segment(name, pars))
  }

  /** The segment records read, the unusable ones dropped. */
  function ReadSegments(segs: seq<RawSegment>): (r: seq<Segment>)
    ensures |r| <= |segs|
  {
    FilterMap(ReadSegment, segs)
  }

  lemma ReadSegmentsGood(segs: seq<RawSegment>)
    ensures forall j :: 0 <= j < |ReadSegments(segs)| ==> GoodSegment(ReadSegments(segs)[j])
  {
    forall j | 0 <= j < |ReadSegments(segs)|
      ensures GoodSegment(ReadSegments(segs)[j])
    {
      FilterMapSound(ReadSegment, segs, j);
    }
  }

  /** At least two segments, each with a name and nine pars. */
  predicate GoodSegments(segs: seq<Segment>) {
    |segs| >= 2 && forall j :: 0 <= j < |segs| ==> GoodSegment(segs[j])
  }

  /** What every course read from the catalog looks like. */
  predicate WellFormed(c: CourseResult) {
    && c.id != [] && IsTrimmed(c.id)
    && c.name != [] && IsTrimmed(c.name)
    && c.nameKana.Some? && c.prefecture.Some?
    && (c.pars.Some? ==> |c.pars.value| == 18)
    && (c.parSegments.Some? ==> GoodSegments(c.parSegments.value))
    && c.normalizedName == Some(NormalizeKeyword(c.name))
    && c.normalizedNameKana == Some(NormalizeKeyword(c.nameKana.value))
    && c.normalizedPrefecture == Some(NormalizeKeyword(c.prefecture.value))
    && c.normalizedId == Some(NormalizeKeyword(c.id))
  }

  /** One catalog record read: dropped without an id or a name; pars kept only when
      exactly 18 read, segments only when at least two are usable. */
  function ReadCourse(c: RawCourse): (r: Option<CourseResult>)
    ensures r.Some? <==> RawId(c) != [] && RawName(c) != []
  {
    var id := RawId(c);
    var name := RawName(c);
    if id == [] || name == [] then None
    else
      var pars := RawPars(c);
      var segments := ReadSegments(Or(c.parSegments, []));
      var kana := RawKana(c);
      var prefecture := RawPrefecture(c);
      Some(CourseResult(
        id, name, Some(kana), Some(prefecture),
        if |pars| == 18 then Some(pars) else None,
        if |segments| >= 2 then Some(segments) else None,
        c.parTotal,
        if c.holes.Some? then c.holes else c.holeCount,
        Some(NormalizeKeyword(name)), Some(NormalizeKeyword(kana)),
        Some(NormalizeKeyword(prefecture)), Some(NormalizeKeyword(id))))
  }

  /** The records read in order, the dropped ones left out. */
  function ReadCourses(items: seq<RawCourse>): (r: seq<CourseResult>)
    ensures |r| <= |items|
  {
    FilterMap(ReadCourse, items)
  }

  /** The records extractLocalCourses reads: entries when it is an array, else courses. */
  function CatalogRecords(data: RawCatalog): seq<RawCourse> {
    if data.entries.Some? then data.entries.value else Or(data.courses, [])
  }

  /** extractLocalCourses: exactly the courses of the records with an id and a name,
      all of them well formed. */
  function ExtractLocalCourses(data: RawCatalog): (r: seq<CourseResult>)
    ensures forall j :: 0 <= j < |r| ==> WellFormed(r[j]) && FromRecord(CatalogRecords(data), r[j])
    ensures forall i :: 0 <= i < |CatalogRecords(data)| && RawId(CatalogRecords(data)[i]) != [] && RawName(CatalogRecords(data)[i]) != [] ==>
      ReadCourse(CatalogRecords(data)[i]).value in r
  {
    ReadCoursesExact(CatalogRecords(data));
    ReadCourses(CatalogRecords(data))
  }

  /** A record read is a well-formed course: id, name, kana and prefecture come from the
      record's fallbacks, the pars only when exactly 18 read, the segments only when at
      least two are usable, and the total and hole count as the record gives them. */
  lemma ReadCourseShape(c: RawCourse)
    requires ReadCourse(c).Some?
    ensures var r := ReadCourse(c).value;
      && WellFormed(r) && r.id == RawId(c) && r.name == RawName(c)
      && r.nameKana == Some(RawKana(c)) && r.prefecture == Some(RawPrefecture(c))
      && (r.pars.Some? <==> |RawPars(c)| == 18)
      && (r.pars.Some? ==> r.pars.value == RawPars(c))
      && (r.parSegments.Some? <==> |ReadSegments(Or(c.parSegments, []))| >= 2)
      && (r.parSegments.Some? ==> r.parSegments.value == ReadSegments(Or(c.parSegments, [])))
      && r.parTotal == c.parTotal
      && r.holeCount == (if c.holes.Some? then c.holes else c.holeCount)
  {
    ReadSegmentsGood(Or(c.parSegments, []));
  }

  /** The course c is what one of the records reads as. */
  predicate FromRecord(items: seq<RawCourse>, c: CourseResult) {
    exists i :: 0 <= i < |items| && ReadCourse(items[i]) == Some(c)
  }

  /** The courses read are exactly those of the records with an id and a name, all
      of them well formed. */
  lemma ReadCoursesExact(items: seq<RawCourse>)
    ensures forall j :: 0 <= j < |ReadCourses(items)| ==>
      WellFormed(ReadCourses(items)[j]) && FromRecord(items, ReadCourses(items)[j])
    ensures forall i :: 0 <= i < |items| && RawId(items[i]) != [] && RawName(items[i]) != [] ==>
      ReadCourse(items[i]).value in ReadCourses(items)
  {
    var r := ReadCourses(items);
    forall i | 0 <= i < |items| && RawId(items[i]) != [] && RawName(items[i]) != []
      ensures ReadCourse(items[i]).value in r
    {
      FilterMapComplete(ReadCourse, items, i);
    }
    forall j | 0 <= j < |r|
      ensures WellFormed(r[j]) && FromRecord(items, r[j])
    {
      FilterMapSound(ReadCourse, items, j);
      var i :| 0 <= i < |items| && ReadCourse(items[i]) == Some(r[j]);
      ReadCourseShape(items[i]);
    }
  }

  /** A course as a catalog record would hold it. */
  function ToRecord(c: CourseResult): RawCourse {
    RawCourse(
      Some(c.id), None, None, None,
      Some(c.name), None, None,
      c.nameKana, None, None,
      c.prefecture, None, None,
      if c.pars.Some? then Some(WriteScores(c.pars.value)) else None, None,
      if c.parSegments.Some? then Some(SegmentRecords(c.parSegments.value)) else None,
      c.parTotal, c.holeCount, None)
  }

  function SegmentRecords(segs: seq<Segment>): (r: seq<RawSegment>)
    ensures |r| == |segs|
    decreases |segs|
  {
    if segs == [] then []
    else SegmentRecords(segs[..|segs| - 1]) + [SegmentRecord(segs[|segs| - 1])]
  }

  function SegmentRecord(seg: Segment): RawSegment {
    RawSegment(Some(seg.name), Some(WriteScores(seg.pars)))
  }

  lemma ReadSegmentRecord(seg: Segment)
    requires GoodSegment(seg) && IsTrimmed(seg.name)
    ensures ReadSegment(SegmentRecord(seg)) == Some(seg)
  {
    TrimOfTrimmed(seg.name);
    ParsedWritten(seg.pars);
  }

  /** Reading one more record that yields a segment appends that segment. */
  lemma {:induction false} ReadSegmentsSnoc(records: seq<RawSegment>, seg: Segment)
    requires records != [] && ReadSegment(records[|records| - 1]) == Some(seg)
    ensures ReadSegments(records) == ReadSegments(records[..|records| - 1]) + [seg]
  {
  }

  lemma {:induction false} SegmentRecordsRead(segs: seq<Segment>)
    requires forall j :: 0 <= j < |segs| ==> GoodSegment(segs[j]) && IsTrimmed(segs[j].name)
    ensures ReadSegments(SegmentRecords(segs)) == segs
    decreases |segs|
  {
    if segs != [] {
      var n := |segs|;
      var init, last := segs[..n - 1], segs[n - 1];
      var records := SegmentRecords(segs);
      assert records == SegmentRecords(init) + [SegmentRecord(last)];
      SegmentRecordsRead(init);
      ReadSegmentRecord(last);
      assert records[..n - 1] == SegmentRecords(init);
      ReadSegmentsSnoc(records, last);
      assert init + [last] == segs;
    }
  }

  lemma {:induction false} ReadRecordId(c: CourseResult)
    requires IsTrimmed(c.id)
    ensures RawId(ToRecord(c)) == c.id
  {
    var rec := ToRecord(c);
    assert FirstPresent([rec.courseCode, rec.id, rec.courseId, rec.golfCourseId]) == c.id;
    TrimOfTrimmed(c.id);
  }

  lemma {:induction false} ReadRecordName(c: CourseResult)
    requires IsTrimmed(c.name)
    ensures RawName(ToRecord(c)) == c.name
  {
    var rec := ToRecord(c);
    assert FirstPresent([rec.courseTitle, rec.name, rec.golfCourseName]) == c.name;
    TrimOfTrimmed(c.name);
  }

  lemma {:induction false} ReadRecordKana(c: CourseResult)
    requires c.nameKana.Some? && c.prefecture.Some?
    ensures RawKana(ToRecord(c)) == c.nameKana.value && RawPrefecture(ToRecord(c)) == c.prefecture.value
  {
    var rec := ToRecord(c);
    assert [rec.courseKana, rec.nameKana, rec.golfCourseNameKana] == [c.nameKana, None, None];
    assert [rec.region, rec.prefecture, rec.prefectureName] == [c.prefecture, None, None];
  }

  lemma {:induction false} ReadRecordNames(c: CourseResult)
    requires WellFormed(c)
    ensures RawId(ToRecord(c)) == c.id && RawName(ToRecord(c)) == c.name
    ensures RawKana(ToRecord(c)) == c.nameKana.value && RawPrefecture(ToRecord(c)) == c.prefecture.value
  {
    ReadRecordId(c);
    ReadRecordName(c);
    ReadRecordKana(c);
  }

  lemma ReadRecordPars(c: CourseResult)
    requires WellFormed(c)
    ensures var pars := RawPars(ToRecord(c));
      if c.pars.Some? then pars == c.pars.value else pars == []
  {
    if c.pars.Some? {
      ParsedWritten(c.pars.value);
    }
  }

  lemma ReadRecordSegments(c: CourseResult)
    requires WellFormed(c)
    requires c.parSegments.Some? ==> forall j :: 0 <= j < |c.parSegments.value| ==> IsTrimmed(c.parSegments.value[j].name)
    ensures var segs := ReadSegments(Or(ToRecord(c).parSegments, []));
      if c.parSegments.Some? then segs == c.parSegments.value else segs == []
  {
    if c.parSegments.Some? {
      SegmentRecordsRead(c.parSegments.value);
    }
  }

  /** A well-formed course with trimmed segment names is read back unchanged from its record. */
  lemma ReadRecord(c: CourseResult)
    requires WellFormed(c)
    requires c.parSegments.Some? ==> forall j :: 0 <= j < |c.parSegments.value| ==> IsTrimmed(c.parSegments.value[j].name)
    ensures ReadCourse(ToRecord(c)) == Some(c)
  {
    ReadRecordNames(c);
    ReadRecordPars(c);
    ReadRecordSegments(c);
  }

  // Completing courses from the par tables

  predicate Blank(o: Option<string>) {
    o.None? || o.value == []
  }

  /** One course completed from its par data, if the tables have the course. */
  function MergeOne(course: CourseResult, parMap: map<string, ParCourseData>): (r: CourseResult)
    ensures r == course.(prefecture := r.prefecture, pars := r.pars, parSegments := r.parSegments)
  {
    if course.id !in parMap then course
    else
      var parData := parMap[course.id];
      var withPrefecture := if Blank(course.prefecture) && parData.prefecture != [] then course.(prefecture := Some(parData.prefecture)) else course;
      var withPars := if parData.fullPars.Some? && |parData.fullPars.value| == 18 then withPrefecture.(pars := parData.fullPars) else withPrefecture;
      if |parData.segments| >= 2 then withPars.(parSegments := Some(parData.segments)) else withPars
  }

  /** mergeCourseParData: each course keeps its place; one the tables lack is
      unchanged; only the prefecture, the pars and the segments can change, and each
      only as the tables direct. */
  function MergeCourseParData(courses: seq<CourseResult>, parMap: map<string, ParCourseData>): (r: seq<CourseResult>)
    ensures |r| == |courses|
    ensures forall i :: 0 <= i < |courses| ==>
      var c := courses[i];
      && r[i].(prefecture := c.prefecture, pars := c.pars, parSegments := c.parSegments) == c
      && (c.id !in parMap ==> r[i] == c)
      && (c.id in parMap ==>
            && r[i].prefecture == (if Blank(c.prefecture) && parMap[c.id].prefecture != [] then Some(parMap[c.id].prefecture) else c.prefecture)
            && r[i].pars == (if parMap[c.id].fullPars.Some? && |parMap[c.id].fullPars.value| == 18 then parMap[c.id].fullPars else c.pars)
            && r[i].parSegments == (if |parMap[c.id].segments| >= 2 then Some(parMap[c.id].segments) else c.parSegments))
  {
    seq(|courses|, i requires 0 <= i < |courses| => MergeOne(courses[i], parMap))
  }

  /** Completing twice changes nothing more. */
  lemma MergeCourseParDataIdempotent(courses: seq<CourseResult>, parMap: map<string, ParCourseData>)
    ensures MergeCourseParData(MergeCourseParData(courses, parMap), parMap) == MergeCourseParData(courses, parMap)
  {
    var once := MergeCourseParData(courses, parMap);
    assert forall i :: 0 <= i < |courses| ==> MergeOne(once[i], parMap) == once[i];
  }

  // Keyword search

  function SearchName(c: CourseResult): string { Or(c.normalizedName, NormalizeKeyword(c.name)) }
  function SearchKana(c: CourseResult): string { Or(c.normalizedNameKana, NormalizeKeyword(Or(c.nameKana, []))) }
  function SearchPrefecture(c: CourseResult): string { Or(c.normalizedPrefecture, NormalizeKeyword(Or(c.prefecture, []))) }
  function SearchId(c: CourseResult): string { Or(c.normalizedId, NormalizeKeyword(c.id)) }

  predicate TokenMatches(c: CourseResult, token: string) {
    Contains(SearchName(c), token) || Contains(SearchKana(c), token)
    || Contains(SearchPrefecture(c), token) || Contains(SearchId(c), token)
  }

  /** tokens.every(...). */
  predicate EveryToken(c: CourseResult, tokens: seq<string>)
    decreases |tokens|
  {
    tokens == [] || (TokenMatches(c, tokens[0]) && EveryToken(c, tokens[1..]))
  }

  /** matchCourse: a course matches exactly when there is a token and every token is
      part of its name, kana, prefecture or id. */
  predicate MatchCourse(c: CourseResult, tokens: seq<string>)
    ensures MatchCourse(c, tokens) <==> |tokens| > 0 && forall i :: 0 <= i < |tokens| ==> TokenMatches(c, tokens[i])
  {
    EveryTokenIff(c, tokens);
    |tokens| > 0 && EveryToken(c, tokens)
  }

  lemma {:induction false} EveryTokenIff(c: CourseResult, tokens: seq<string>)
    ensures EveryToken(c, tokens) <==> forall i :: 0 <= i < |tokens| ==> TokenMatches(c, tokens[i])
    decreases |tokens|
  {
    if tokens != [] {
      EveryTokenIff(c, tokens[1..]);
      assert forall i :: 1 <= i < |tokens| ==> tokens[i] == tokens[1..][i - 1];
    }
  }

  /** A catalog course is found by its own name typed in any case, with surrounding space. */
  lemma MatchOwnName(c: CourseResult, typed: string)
    requires WellFormed(c) && NormalizeKeyword(typed) == NormalizeKeyword(c.name)
    ensures MatchCourse(c, [NormalizeKeyword(typed)])
  {
    ContainsSelf(SearchName(c));
    EveryTokenIff(c, [NormalizeKeyword(typed)]);
  }
}
