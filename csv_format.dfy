/** formatCsv of the catalog sync: a header line of 28 column names, then one line
    per course. */
module CsvFormat {
  import opened JsText
  import opened CsvRows
  import opened CsvQuoting
  import opened SyncDriver

  // ------------------------------------------------------------ the catalog CSV

  const FixedHeaders: seq<string> :=
    ["id", "name", "prefecture", "areaCodes", "holeCount", "parOut", "parIn", "parTotal", "parSource", "parTeeName"]

  /** The column names: ten fixed ones, then par1 to par18. */
  function Headers(): (r: seq<string>)
    ensures |r| == 28
  {
    FixedHeaders + seq(18, k requires 0 <= k < 18 => "par" + IntToString(k + 1))
  }

  /** An integer field: its decimal digits, or empty when there is none. */
  function OptionalInt(v: Option<int>): string {
    if v.Some? then IntToString(v.value) else ""
  }

  function OptionalText(v: Option<string>): string {
    if v.Some? then v.value else ""
  }

  /** The fields of a course line, in header order; missing pars are empty fields. */
  function CourseFields(c: Entry): (r: seq<string>)
    ensures |r| == |Headers()|
  {
    [c.id, c.name, c.prefecture,
     if c.areaCodes.Some? then Join(c.areaCodes.value, "|") else "",
     OptionalInt(c.holeCount), OptionalInt(c.parOut), OptionalInt(c.parIn), OptionalInt(c.parTotal),
     OptionalText(c.parSource), OptionalText(c.parTeeName)]
    + seq(18, k requires 0 <= k < 18 => if k < |c.pars| then IntToString(c.pars[k]) else "")
  }

  /** The line of one course, escaped as formatCsv writes it. */
  function CourseLine(c: Entry): string {
    Join(EscapeRowAsWritten(CourseFields(c)), ",")
  }

  function CourseLines(courses: seq<Entry>): (r: seq<string>)
    ensures |r| == |courses|
  {
    seq(|courses|, k requires 0 <= k < |courses| => CourseLine(courses[k]))
  }

  /** The text formatCsv returns. */
  function CsvText(courses: seq<Entry>): string {
    Join([Join(Headers(), ",")] + CourseLines(courses), "\n")
  }

  /** formatCsv: the header line, then one line per course pushed in order. */
  method FormatCsv(courses: seq<Entry>) returns (text: string)
    ensures text == CsvText(courses)
  {
    var header := Join(Headers(), ",");
    var lines := [header];
    var i := 0;
    while i < |courses|
      invariant 0 <= i <= |courses|
      invariant LinesSoFar(lines, header, courses, i)
    {
      var line := Join(EscapeRowAsWritten(CourseFields(courses[i])), ",");
      PushLine(lines, header, courses, i, line);
      lines := lines + [line];
      i := i + 1;
    }
    LinesDone(lines, header, courses);
    text := Join(lines, "\n");
  }

  /** The lines pushed after the first i courses. */
  predicate LinesSoFar(lines: seq<string>, header: string, courses: seq<Entry>, i: nat)
    requires i <= |courses|
  {
    |lines| == i + 1 && lines[0] == header && forall k :: 0 <= k < i ==> lines[k + 1] == CourseLine(courses[k])
  }

  lemma {:induction false} PushLine(lines: seq<string>, header: string, courses: seq<Entry>, i: nat, line: string)
    requires i < |courses| && LinesSoFar(lines, header, courses, i) && line == CourseLine(courses[i])
    ensures LinesSoFar(lines + [line], header, courses, i + 1)
  {
  }

  lemma {:induction false} LinesDone(lines: seq<string>, header: string, courses: seq<Entry>)
    requires LinesSoFar(lines, header, courses, |courses|)
    ensures lines == [header] + CourseLines(courses)
  {
  }

  lemma {:induction false} IntToStringPlain(n: int)
    ensures !NeedsQuotes(IntToString(n))
  {
    var s := IntToString(n);
    NeedsQuotesIff(s);
    if n < 0 {
      assert forall k :: 0 < k < |s| ==> s[k] == NatToString(-n)[k - 1];
    }
  }

  /** Characters from 'A' to 'z': letters and a few signs, none of them special. */
  predicate LetterLike(v: string) {
    forall k :: 0 <= k < |v| ==> 'A' <= v[k] <= 'z'
  }

  lemma {:induction false} LetterLikePlain(v: string)
    requires LetterLike(v)
    ensures !NeedsQuotes(v)
  {
    NeedsQuotesIff(v);
  }

  lemma {:induction false} FixedHeadersPlain()
    ensures forall k :: 0 <= k < |FixedHeaders| ==> !NeedsQuotes(FixedHeaders[k])
  {
    forall k | 0 <= k < |FixedHeaders|
      ensures !NeedsQuotes(FixedHeaders[k])
    {
      assert LetterLike(FixedHeaders[k]);
      LetterLikePlain(FixedHeaders[k]);
    }
  }

  /** The column names need no quotes, so the header line is written as escaped. */
  lemma {:induction false} HeadersPlain()
    ensures EscapeRow(Headers()) == Headers()
  {
    var h := Headers();
    FixedHeadersPlain();
    assert LetterLike("par");
    LetterLikePlain("par");
    forall k | 0 <= k < 28
      ensures EscapeField(h[k]) == h[k]
    {
      if k < 10 {
        assert h[k] == FixedHeaders[k];
      } else {
        IntToStringPlain(k - 9);
        NeedsQuotesAppend("par", IntToString(k - 9));
        assert h[k] == "par" + IntToString(k - 9);
      }
    }
  }

  /** The fields of every course line, in order. */
  function CourseRows(courses: seq<Entry>): (r: seq<seq<string>>)
    ensures |r| == |courses|
  {
    seq(|courses|, k requires 0 <= k < |courses| => CourseFields(courses[k]))
  }

  /** The export with CR also forcing quotes. */
  function CourseLineCorrected(c: Entry): string {
    EncodeRow(CourseFields(c))
  }

  function CourseLinesCorrected(courses: seq<Entry>): (r: seq<string>)
    ensures |r| == |courses|
  {
    seq(|courses|, k requires 0 <= k < |courses| => CourseLineCorrected(courses[k]))
  }

  function CsvTextCorrected(courses: seq<Entry>): string {
    Join([Join(Headers(), ",")] + CourseLinesCorrected(courses), "\n")
  }

  /** No field of the course line holds CR. */
  predicate CourseNoCr(c: Entry) {
    forall j :: 0 <= j < |CourseFields(c)| ==> NoCr(CourseFields(c)[j])
  }

  /** Over courses without CR the export as written and the corrected one agree. */
  lemma {:induction false} CsvTextAgrees(courses: seq<Entry>)
    requires forall k :: 0 <= k < |courses| ==> CourseNoCr(courses[k])
    ensures CsvText(courses) == CsvTextCorrected(courses)
  {
    forall k | 0 <= k < |courses|
      ensures CourseLine(courses[k]) == CourseLineCorrected(courses[k])
    {
      EscapeRowAgrees(CourseFields(courses[k]));
      EncodeRowJoin(CourseFields(courses[k]));
    }
    assert CourseLines(courses) == CourseLinesCorrected(courses);
  }

  /** The header line needs no quoting: it is the column names joined by commas. */
  lemma {:induction false} HeaderLineEncoded()
    ensures EncodeRow(Headers()) == Join(Headers(), ",")
  {
    HeadersPlain();
    EncodeRowJoin(Headers());
  }

  /** Encoding a header row h and the course rows gives the header line and then the
      corrected course lines. */
  lemma {:induction false} EncodeLinesCourses(h: seq<string>, courses: seq<Entry>)
    requires EncodeRow(h) == Join(h, ",")
    ensures EncodeLines([h] + CourseRows(courses)) == [Join(h, ",")] + CourseLinesCorrected(courses)
  {
    var rows := [h] + CourseRows(courses);
    var lines := [Join(h, ",")] + CourseLinesCorrected(courses);
    forall k | 0 <= k < |rows|
      ensures EncodeLines(rows)[k] == lines[k]
    {
      if k > 0 {
        assert rows[k] == CourseFields(courses[k - 1]);
        assert lines[k] == CourseLineCorrected(courses[k - 1]);
      }
    }
  }

  /** The corrected export is the header row and the course rows encoded as a table. */
  lemma {:induction false} CorrectedTextEncodes(courses: seq<Entry>)
    ensures CsvTextCorrected(courses) == EncodeTable([Headers()] + CourseRows(courses))
  {
    HeaderLineEncoded();
    EncodeLinesCourses(Headers(), courses);
    EncodeTableJoin([Headers()] + CourseRows(courses));
  }

  /** The header row survives the blank-row filter in front of the course rows. */
  lemma {:induction false} HeaderRowKept(courses: seq<Entry>)
    ensures NonBlankRows([Headers()] + CourseRows(courses)) == [Headers()] + NonBlankRows(CourseRows(courses))
  {
    var rows := [Headers()] + CourseRows(courses);
    HeaderKept();
    NonBlankRowsCons(rows);
    assert rows[0] == Headers() && rows[1..] == CourseRows(courses);
  }

  /** The corrected export read back by parseCsvRows: the column names, then the
      fields of every course whose line is not blank, in order. */
  lemma {:induction false} FormatCsvCorrectedRoundTrip(courses: seq<Entry>)
    ensures Scan(CsvTextCorrected(courses), Start) == [Headers()] + NonBlankRows(CourseRows(courses))
  {
    CorrectedTextEncodes(courses);
    TableRoundTrip([Headers()] + CourseRows(courses));
    HeaderRowKept(courses);
  }

  /** What formatCsv writes, read back by parseCsvRows, when no field holds CR: the
      column names, then the fields of every course whose line is not blank, in order. */
  lemma {:induction false} FormatCsvRoundTrip(courses: seq<Entry>)
    requires forall k :: 0 <= k < |courses| ==> CourseNoCr(courses[k])
    ensures Scan(CsvText(courses), Start) == [Headers()] + NonBlankRows(CourseRows(courses))
  {
    CsvTextAgrees(courses);
    FormatCsvCorrectedRoundTrip(courses);
  }

  /** The header line is never blank. */
  lemma {:induction false} HeaderKept()
    ensures KeptFirst(Headers()) == [Headers()]
  {
    assert Headers()[0] == "id";
    assert Trim(Headers()[0]) != [] by {
      TrimEmptyIffBlank("id");
      assert !IsWhitespace("id"[0]);
    }
  }

  /** The par columns of a course line read back, with parseInt, as the course's pars. */
  lemma {:induction false} CourseParsReadBack(c: Entry, k: nat)
    requires k < 18 && k < |c.pars|
    ensures ParseInt(CourseFields(c)[10 + k]) == Some(c.pars[k])
  {
    IntToStringRoundTrip(c.pars[k]);
  }
}
