/** parseParCsv of the score-photo page: the par tables, read with parseCsvRows,
    become one entry per course code holding the course's name, prefecture, the
    nine-hole segments and the eighteen pars of a full layout. Header names have
    aliases; the first non-empty value of each field wins. */
module ParCsv {
  import opened JsText
  import opened CsvRows

  datatype Segment = Segment(name: string, pars: seq<int>)

  /** A course of the par tables. An empty name or prefecture stands for the absent
      property: the code tests both with `!value`. */
  datatype ParCourseData = ParCourseData(name: string, prefecture: string, segments: seq<Segment>, fullPars: Option<seq<int>>)

  const EmptyCourse := ParCourseData([], [], [], None)

  // ------------------------------------------------------------------ header

  /** A header cell without its byte order mark, trimmed. */
  function HeaderName(v: string): string {
    Trim(if |v| > 0 && v[0] == '\U{FEFF}' then v[1..] else v)
  }

  function HeaderNames(cells: seq<string>): (r: seq<string>)
    ensures |r| == |cells|
  {
    seq(|cells|, k requires 0 <= k < |cells| => HeaderName(cells[k]))
  }

  /** Array.prototype.indexOf: the first position of x, or -1. */
  function IndexOf(xs: seq<string>, x: string): (r: int)
    ensures -1 <= r < |xs|
  {
    if xs == [] then -1
    else if xs[0] == x then 0
    else
      var i := IndexOf(xs[1..], x);
      if i < 0 then -1 else i + 1
  }

  /** The position found holds x and no earlier one does; -1 means x is absent. */
  lemma {:induction false} IndexOfFirst(xs: seq<string>, x: string)
    ensures IndexOf(xs, x) >= 0 ==> xs[IndexOf(xs, x)] == x && forall j :: 0 <= j < IndexOf(xs, x) ==> xs[j] != x
    ensures IndexOf(xs, x) < 0 <==> x !in xs
    decreases |xs|
  {
    if xs != [] && xs[0] != x {
      IndexOfFirst(xs[1..], x);
      assert forall j :: 0 < j < |xs| ==> xs[j] == xs[1..][j - 1];
      assert x in xs ==> x in xs[1..];
    }
  }

  /** The column of the first alias the header has, or -1. */
  function Lookup(header: seq<string>, aliases: seq<string>): int
    decreases |aliases|
  {
    if aliases == [] then -1
    else
      var i := IndexOf(header, aliases[0]);
      if i >= 0 then i else Lookup(header, aliases[1..])
  }

  /** Aliases are tried in order: the column found belongs to the first alias present,
      and there is none only when no alias is present. */
  lemma {:induction false} LookupFirstAlias(header: seq<string>, aliases: seq<string>)
    ensures Lookup(header, aliases) < 0 <==> forall a :: 0 <= a < |aliases| ==> aliases[a] !in header
    ensures Lookup(header, aliases) >= 0 ==>
      exists a :: 0 <= a < |aliases| && Lookup(header, aliases) == IndexOf(header, aliases[a])
        && forall b :: 0 <= b < a ==> aliases[b] !in header
    decreases |aliases|
  {
    if aliases != [] {
      LookupFirstAlias(header, aliases[1..]);
      IndexOfFirst(header, aliases[0]);
      var i := IndexOf(header, aliases[0]);
      if i < 0 {
        assert aliases[0] !in header;
        forall a | 0 <= a < |aliases| - 1
          ensures aliases[1..][a] == aliases[a + 1]
        {
        }
        if Lookup(header, aliases) >= 0 {
          var a :| 0 <= a < |aliases| - 1 && Lookup(header, aliases[1..]) == IndexOf(header, aliases[1..][a])
            && forall b :: 0 <= b < a ==> aliases[1..][b] !in header;
          assert forall b :: 0 <= b < a + 1 ==> aliases[b] !in header by {
            forall b | 0 <= b < a + 1
              ensures aliases[b] !in header
            {
              if b > 0 {
                assert aliases[b] == aliases[1..][b - 1];
              }
            }
          }
        }
      } else {
        assert header[i] == aliases[0];
      }
    }
  }

  /** String(n).padStart(2, '0'). */
  function PadTwo(n: nat): string {
    var s := NatToString(n);
    if |s| < 2 then ['0'] + s else s
  }

  /** The hole columns of the first naming: p01 to p18. */
  function HoleName(k: nat): string {
    "p" + PadTwo(k + 1)
  }

  /** The hole columns of the second naming: hole1_par to hole18_par. */
  function HoleParName(k: nat): string {
    "hole" + NatToString(k + 1) + "_par"
  }

  /** The columns a par table's rows are read from; -1 for a missing one. */
  datatype Columns = Columns(area: int, courseName: int, segmentName: int, layoutKind: int, courseId: int, holes: seq<int>)

  /** The columns of p01..p18. */
  function PrimaryHoles(header: seq<string>): (r: seq<int>)
    ensures |r| == 18
  {
    seq(18, k requires 0 <= k < 18 => IndexOf(header, HoleName(k)))
  }

  /** The columns of hole1_par..hole18_par. */
  function FallbackHoles(header: seq<string>): (r: seq<int>)
    ensures |r| == 18
  {
    seq(18, k requires 0 <= k < 18 => IndexOf(header, HoleParName(k)))
  }

  predicate NoneFound(cols: seq<int>) {
    forall k :: 0 <= k < |cols| ==> cols[k] < 0
  }

  function HoleColumns(header: seq<string>): (r: seq<int>)
    ensures |r| == 18
  {
    if NoneFound(PrimaryHoles(header)) then FallbackHoles(header) else PrimaryHoles(header)
  }

  function ColumnsOf(header: seq<string>): (c: Columns)
    ensures |c.holes| == 18
  {
    Columns(
      Lookup(header, ["region", "area", "prefecture"]),
      Lookup(header, ["course_title", "golf_course", "display_name"]),
      Lookup(header, ["layout_title", "course_name"]),
      Lookup(header, ["layout_kind", "course_type"]),
      Lookup(header, ["course_code", "course_id"]),
      HoleColumns(header))
  }

  // ------------------------------------------------------------------ one row

  /** The trimmed cell at idx; empty when the column is missing or the row is short. */
  function Cell(row: seq<string>, idx: int): string {
    if 0 <= idx < |row| then Trim(row[idx]) else []
  }

  /** What one data row says. */
  datatype RowData = RowData(courseId: string, segmentName: string, layoutKind: string,
                             parsed: seq<Option<int>>, prefecture: string, courseName: string)

  /** parseInt of each hole cell; None (NaN) for a missing column or an unparsable cell. */
  function ParsedHoles(row: seq<string>, holes: seq<int>): (r: seq<Option<int>>)
    ensures |r| == |holes|
  {
    seq(|holes|, k requires 0 <= k < |holes| => ParseInt(Cell(row, holes[k])))
  }

  function ReadRow(row: seq<string>, cols: Columns): (r: RowData)
    requires |cols.holes| == 18
    ensures |r.parsed| == 18
  {
    RowData(Cell(row, cols.courseId), Cell(row, cols.segmentName), ToLowerAscii(Cell(row, cols.layoutKind)),
            ParsedHoles(row, cols.holes), Cell(row, cols.area), Cell(row, cols.courseName))
  }

  /** The pars of a row when every hole parses. */
  function FullParsOf(parsed: seq<Option<int>>): (r: Option<seq<int>>)
    ensures r.Some? <==> forall k :: 0 <= k < |parsed| ==> parsed[k].Some?
    ensures r.Some? ==> |r.value| == |parsed| && forall k :: 0 <= k < |parsed| ==> parsed[k] == Some(r.value[k])
  {
    if forall k :: 0 <= k < |parsed| ==> parsed[k].Some? then
      Some(seq(|parsed|, k requires 0 <= k < |parsed| => parsed[k].value))
    else None
  }

  /** The holes that parse, in order. */
  function Parsed(parsed: seq<Option<int>>): (r: seq<int>)
    ensures |r| <= |parsed|
  {
    if parsed == [] then []
    else (if parsed[0].Some? then [parsed[0].value] else []) + Parsed(parsed[1..])
  }

  /** The pars of a segment row: the first nine holes that parse. */
  function NinePars(parsed: seq<Option<int>>): (r: seq<int>)
    ensures |r| <= 9
  {
    var v := Parsed(parsed);
    if |v| > 9 then v[..9] else v
  }

  predicate IsFullLayout(kind: string) {
    Contains(kind, "out+in") || Contains(kind, "all")
  }

  /** A row is used when it has a course code and either a segment name or a full set of pars. */
  predicate Kept(r: RowData) {
    r.courseId != [] && (r.segmentName != [] || FullParsOf(r.parsed).Some?)
  }

  /** A row that adds a segment under its name, unless one of that name exists. */
  predicate SegmentRow(r: RowData) {
    !IsFullLayout(r.layoutKind) && r.segmentName != [] && |NinePars(r.parsed)| == 9
  }

  predicate HasSegment(segments: seq<Segment>, name: string) {
    exists j :: 0 <= j < |segments| && segments[j].name == name
  }

  predicate DistinctNames(segments: seq<Segment>) {
    forall a, b :: 0 <= a < b < |segments| ==> segments[a].name != segments[b].name
  }

  /** The entry after one row of its course. */
  function Update(e: ParCourseData, r: RowData): ParCourseData {
    var e1 := if r.prefecture != [] && e.prefecture == [] then e.(prefecture := r.prefecture) else e;
    var e2 := if r.courseName != [] && e1.name == [] then e1.(name := r.courseName) else e1;
    var full := FullParsOf(r.parsed);
    var e3 := if full.Some? && |full.value| == 18 && e2.fullPars.None? then e2.(fullPars := full) else e2;
    var pars := NinePars(r.parsed);
    if !IsFullLayout(r.layoutKind) && r.segmentName != [] && |pars| == 9 && !HasSegment(e3.segments, r.segmentName)
    then e3.(segments := e3.segments + [Segment(r.segmentName, pars)])
    else e3
  }

  /** Update field by field: a field is filled once, and a segment is added once per name. */
  lemma {:induction false} UpdateFields(e: ParCourseData, r: RowData)
    requires |r.parsed| == 18
    ensures Update(e, r).name == if e.name == [] then r.courseName else e.name
    ensures Update(e, r).prefecture == if e.prefecture == [] then r.prefecture else e.prefecture
    ensures Update(e, r).fullPars == if e.fullPars.None? then FullParsOf(r.parsed) else e.fullPars
    ensures Update(e, r).segments
         == if SegmentRow(r) && !HasSegment(e.segments, r.segmentName)
            then e.segments + [Segment(r.segmentName, NinePars(r.parsed))] else e.segments
  {
  }

  // ------------------------------------------------------------------ the table

  /** The map after the rows rs, in order. */
  function Fold(rs: seq<RowData>): map<string, ParCourseData>
    decreases |rs|
  {
    if rs == [] then map[]
    else
      var m := Fold(rs[..|rs| - 1]);
      var r := rs[|rs| - 1];
      if Kept(r) then m[r.courseId := Update(if r.courseId in m then m[r.courseId] else EmptyCourse, r)]
      else m
  }

  function ReadRows(rows: seq<seq<string>>, cols: Columns): (r: seq<RowData>)
    requires |cols.holes| == 18
    ensures |r| == |rows|
  {
    seq(|rows|, k requires 0 <= k < |rows| => ReadRow(rows[k], cols))
  }

  /** The map parseParCsv returns for the rows of a text. */
  function ParTable(rows: seq<seq<string>>): map<string, ParCourseData> {
    if rows == [] then map[] else Fold(ReadRows(rows[1..], ColumnsOf(HeaderNames(rows[0]))))
  }

  /** One column of the header: its first name, then each alias while none is found. */
  method FindColumn(header: seq<string>, names: seq<string>) returns (idx: int)
    requires |names| > 0
    ensures idx == Lookup(header, names)
  {
    idx := IndexOf(header, names[0]);
    var j := 1;
    while idx < 0 && j < |names|
      invariant 1 <= j <= |names|
      invariant Lookup(header, names) == if idx < 0 then Lookup(header, names[j..]) else idx
    {
      assert names[j..][1..] == names[j + 1..];
      idx := IndexOf(header, names[j]);
      j := j + 1;
    }
  }

  /** The column resolution at the head of parseParCsv: each column under its first
      name, then under its aliases; the p01..p18 hole columns, or hole1_par..hole18_par
      when none of those exists. */
  method ResolveColumns(header: seq<string>) returns (cols: Columns)
    ensures cols == ColumnsOf(header)
  {
    var areaIndex := FindColumn(header, ["region", "area", "prefecture"]);
    var courseNameIndex := FindColumn(header, ["course_title", "golf_course", "display_name"]);
    var segmentNameIndex := FindColumn(header, ["layout_title", "course_name"]);
    var layoutKindIndex := FindColumn(header, ["layout_kind", "course_type"]);
    var courseIdIndex := FindColumn(header, ["course_code", "course_id"]);
    var holeIndexes := PrimaryHoles(header);
    if NoneFound(holeIndexes) {
      holeIndexes := FallbackHoles(header);
    }
    cols := Columns(areaIndex, courseNameIndex, segmentNameIndex, layoutKindIndex, courseIdIndex, holeIndexes);
  }

  lemma {:induction false} FoldSnoc(rs: seq<RowData>, r: RowData)
    ensures Fold(rs + [r])
         == if Kept(r) then Fold(rs)[r.courseId := Update(if r.courseId in Fold(rs) then Fold(rs)[r.courseId] else EmptyCourse, r)]
            else Fold(rs)
  {
    assert (rs + [r])[..|rs|] == rs;
  }

  lemma {:induction false} ReadRowsSnoc(rows: seq<seq<string>>, i: nat, cols: Columns)
    requires 1 <= i < |rows| && |cols.holes| == 18
    ensures ReadRows(rows[1..i + 1], cols) == ReadRows(rows[1..i], cols) + [ReadRow(rows[i], cols)]
  {
  }

  /** parseParCsv. */
  method ParseParCsv(text: string) returns (m: map<string, ParCourseData>)
    ensures m == ParTable(Scan(text, Start))
  {
    var rows := ParseCsvRows(text);
    m := map[];
    if |rows| == 0 {
      return;
    }
    var cols := ResolveColumns(HeaderNames(rows[0]));
    assert ReadRows(rows[1..1], cols) == [];
    for i := 1 to |rows|
      invariant m == Fold(ReadRows(rows[1..i], cols))
    {
      ghost var before := ReadRows(rows[1..i], cols);
      ReadRowsSnoc(rows, i, cols);
      var row := rows[i];
      var courseId := Cell(row, cols.courseId);
      var segmentName := Cell(row, cols.segmentName);
      var layoutKind := ToLowerAscii(Cell(row, cols.layoutKind));
      var parsedPars := ParsedHoles(row, cols.holes);
      var fullPars := FullParsOf(parsedPars);
      var pars := NinePars(parsedPars);
      var prefecture := Cell(row, cols.area);
      var courseName := Cell(row, cols.courseName);
      ghost var r := RowData(courseId, segmentName, layoutKind, parsedPars, prefecture, courseName);
      assert r == ReadRow(row, cols);
      FoldSnoc(before, r);
      if courseId == [] {
        continue;
      }
      if segmentName == [] && fullPars.None? {
        continue;
      }
      var entry := if courseId in m then m[courseId] else EmptyCourse;
      ghost var old_entry := entry;
      if prefecture != [] && entry.prefecture == [] {
        entry := entry.(prefecture := prefecture);
      }
      if courseName != [] && entry.name == [] {
        entry := entry.(name := courseName);
      }
      if fullPars.Some? && |fullPars.value| == 18 && entry.fullPars.None? {
        entry := entry.(fullPars := fullPars);
      }
      var isFullLayout := IsFullLayout(layoutKind);
      if !isFullLayout && segmentName != [] && |pars| == 9 {
        if !HasSegment(entry.segments, segmentName) {
          entry := entry.(segments := entry.segments + [Segment(segmentName, pars)]);
        }
      }
      assert entry == Update(old_entry, r);
      m := m[courseId := entry];
    }
    assert rows[1..|rows|] == rows[1..];
  }

  // ------------------------------------------------------------ one course

  /** The used rows of course k, in order. */
  function RowsFor(rs: seq<RowData>, k: string): seq<RowData>
    decreases |rs|
  {
    if rs == [] then []
    else
      var r := rs[|rs| - 1];
      RowsFor(rs[..|rs| - 1], k) + (if Kept(r) && r.courseId == k then [r] else [])
  }

  /** The entry made from the rows of one course, in order. */
  function Build(rs: seq<RowData>): ParCourseData
    decreases |rs|
  {
    if rs == [] then EmptyCourse else Update(Build(rs[..|rs| - 1]), rs[|rs| - 1])
  }

  predicate WellRead(rs: seq<RowData>) {
    forall i :: 0 <= i < |rs| ==> |rs[i].parsed| == 18
  }

  /** The used rows of a course are the rows with its code that are used. */
  lemma {:induction false} RowsForMembers(rs: seq<RowData>, k: string)
    ensures forall r :: r in RowsFor(rs, k) <==> r in rs && Kept(r) && r.courseId == k
    decreases |rs|
  {
    if rs != [] {
      var n := |rs|;
      RowsForMembers(rs[..n - 1], k);
      assert rs == rs[..n - 1] + [rs[n - 1]];
    }
  }

  /** A course is in the table exactly when it has a used row, and its entry is
      made from its own used rows only, in order. */
  lemma {:induction false} FoldByCourse(rs: seq<RowData>, k: string)
    ensures k in Fold(rs) <==> RowsFor(rs, k) != []
    ensures k in Fold(rs) ==> Fold(rs)[k] == Build(RowsFor(rs, k))
    decreases |rs|
  {
    if rs != [] {
      var n := |rs|;
      var p := rs[..n - 1];
      var r := rs[n - 1];
      FoldByCourse(p, k);
      if Kept(r) && r.courseId == k {
        var q := RowsFor(p, k);
        assert RowsFor(rs, k) == q + [r];
        assert (q + [r])[..|q|] == q;
        if k !in Fold(p) {
          assert q == [];
        }
      } else {
        assert RowsFor(rs, k) == RowsFor(p, k) + [] == RowsFor(p, k);
        if Kept(r) {
          assert r.courseId != k;
          assert Fold(rs) == Fold(p)[r.courseId := Update(if r.courseId in Fold(p) then Fold(p)[r.courseId] else EmptyCourse, r)];
          assert k in Fold(rs) <==> k in Fold(p);
          assert k in Fold(rs) ==> Fold(rs)[k] == Fold(p)[k];
        }
      }
    }
  }

  /** The courses of the table are the codes of the used rows; an empty code is never one. */
  lemma {:induction false} FoldKeys(rs: seq<RowData>, k: string)
    ensures k in Fold(rs) <==> exists i :: 0 <= i < |rs| && Kept(rs[i]) && rs[i].courseId == k
    ensures k in Fold(rs) ==> k != []
  {
    FoldByCourse(rs, k);
    RowsForMembers(rs, k);
    var q := RowsFor(rs, k);
    if q != [] {
      assert q[0] in q;
      var i :| 0 <= i < |rs| && rs[i] == q[0];
    }
    if exists i :: 0 <= i < |rs| && Kept(rs[i]) && rs[i].courseId == k {
      var i :| 0 <= i < |rs| && Kept(rs[i]) && rs[i].courseId == k;
      assert rs[i] in rs;
      assert rs[i] in q;
    }
  }

  /** The name is the first non-empty course name of the course's rows; it is empty
      only when every row's is. */
  lemma {:induction false} BuildName(rs: seq<RowData>)
    requires WellRead(rs)
    ensures Build(rs).name == [] <==> forall i :: 0 <= i < |rs| ==> rs[i].courseName == []
    ensures Build(rs).name != [] ==>
      exists i :: 0 <= i < |rs| && rs[i].courseName == Build(rs).name && forall j :: 0 <= j < i ==> rs[j].courseName == []
    decreases |rs|
  {
    if rs != [] {
      var n := |rs|;
      var p := rs[..n - 1];
      BuildName(p);
      UpdateFields(Build(p), rs[n - 1]);
      assert forall i :: 0 <= i < n - 1 ==> p[i] == rs[i];
      if Build(p).name != [] {
        var i :| 0 <= i < n - 1 && p[i].courseName == Build(p).name && forall j :: 0 <= j < i ==> p[j].courseName == [];
        assert rs[i].courseName == Build(rs).name;
      } else if rs[n - 1].courseName != [] {
        assert forall j :: 0 <= j < n - 1 ==> rs[j].courseName == [];
      }
    }
  }

  /** The prefecture is the first non-empty one of the course's rows. */
  lemma {:induction false} BuildPrefecture(rs: seq<RowData>)
    requires WellRead(rs)
    ensures Build(rs).prefecture == [] <==> forall i :: 0 <= i < |rs| ==> rs[i].prefecture == []
    ensures Build(rs).prefecture != [] ==>
      exists i :: 0 <= i < |rs| && rs[i].prefecture == Build(rs).prefecture && forall j :: 0 <= j < i ==> rs[j].prefecture == []
    decreases |rs|
  {
    if rs != [] {
      var n := |rs|;
      var p := rs[..n - 1];
      BuildPrefecture(p);
      UpdateFields(Build(p), rs[n - 1]);
      assert forall i :: 0 <= i < n - 1 ==> p[i] == rs[i];
      if Build(p).prefecture != [] {
        var i :| 0 <= i < n - 1 && p[i].prefecture == Build(p).prefecture && forall j :: 0 <= j < i ==> p[j].prefecture == [];
        assert rs[i].prefecture == Build(rs).prefecture;
      } else if rs[n - 1].prefecture != [] {
        assert forall j :: 0 <= j < n - 1 ==> rs[j].prefecture == [];
      }
    }
  }

  /** The full pars are those of the first row whose eighteen holes all parse; there
      are none only when no row has them. */
  lemma {:induction false} BuildFullPars(rs: seq<RowData>)
    requires WellRead(rs)
    ensures Build(rs).fullPars.None? <==> forall i :: 0 <= i < |rs| ==> FullParsOf(rs[i].parsed).None?
    ensures Build(rs).fullPars.Some? ==> |Build(rs).fullPars.value| == 18
    ensures Build(rs).fullPars.Some? ==>
      exists i :: 0 <= i < |rs| && FullParsOf(rs[i].parsed) == Build(rs).fullPars
        && forall j :: 0 <= j < i ==> FullParsOf(rs[j].parsed).None?
    decreases |rs|
  {
    if rs != [] {
      var n := |rs|;
      var p := rs[..n - 1];
      BuildFullPars(p);
      UpdateFields(Build(p), rs[n - 1]);
      assert forall i :: 0 <= i < n - 1 ==> p[i] == rs[i];
      if Build(p).fullPars.Some? {
        var i :| 0 <= i < n - 1 && FullParsOf(p[i].parsed) == Build(p).fullPars
          && forall j :: 0 <= j < i ==> FullParsOf(p[j].parsed).None?;
        assert FullParsOf(rs[i].parsed) == Build(rs).fullPars;
      } else if FullParsOf(rs[n - 1].parsed).Some? {
        assert forall j :: 0 <= j < n - 1 ==> FullParsOf(rs[j].parsed).None?;
      }
    }
  }

  /** No two segments share a name. */
  lemma {:induction false} BuildSegmentsDistinct(rs: seq<RowData>)
    requires WellRead(rs)
    ensures DistinctNames(Build(rs).segments)
    decreases |rs|
  {
    if rs != [] {
      var n := |rs|;
      var p := rs[..n - 1];
      BuildSegmentsDistinct(p);
      UpdateFields(Build(p), rs[n - 1]);
    }
  }

  /** Every segment row has its name among the segments. */
  lemma {:induction false} BuildSegmentsComplete(rs: seq<RowData>)
    requires WellRead(rs)
    ensures forall i :: 0 <= i < |rs| && SegmentRow(rs[i]) ==> HasSegment(Build(rs).segments, rs[i].segmentName)
    decreases |rs|
  {
    if rs != [] {
      var n := |rs|;
      var p := rs[..n - 1];
      BuildSegmentsComplete(p);
      UpdateFields(Build(p), rs[n - 1]);
      var segs := Build(rs).segments;
      assert Build(p).segments <= segs;
      forall i | 0 <= i < n && SegmentRow(rs[i])
        ensures HasSegment(segs, rs[i].segmentName)
      {
        if i < n - 1 {
          assert p[i] == rs[i];
          var j :| 0 <= j < |Build(p).segments| && Build(p).segments[j].name == rs[i].segmentName;
          assert segs[j] == Build(p).segments[j];
        } else if !HasSegment(Build(p).segments, rs[i].segmentName) {
          assert segs[|segs| - 1].name == rs[i].segmentName;
        }
      }
    }
  }

  /** Segment s is made from row i of rs, the first segment row of its name. */
  predicate FirstSegmentRow(rs: seq<RowData>, i: int, s: Segment) {
    0 <= i < |rs| && SegmentRow(rs[i]) && s == Segment(rs[i].segmentName, NinePars(rs[i].parsed))
    && forall i' :: 0 <= i' < i && SegmentRow(rs[i']) ==> rs[i'].segmentName != s.name
  }

  ghost predicate SegmentFrom(rs: seq<RowData>, s: Segment) {
    exists i :: FirstSegmentRow(rs, i, s)
  }

  lemma {:induction false} SegmentFromLonger(p: seq<RowData>, rs: seq<RowData>, s: Segment)
    requires p <= rs && SegmentFrom(p, s)
    ensures SegmentFrom(rs, s)
  {
    var i :| FirstSegmentRow(p, i, s);
    assert forall i' :: 0 <= i' <= i ==> p[i'] == rs[i'];
    assert FirstSegmentRow(rs, i, s);
  }

  /** Every segment comes from the first segment row of its name: that row's name and
      its first nine parsed pars. */
  lemma {:induction false} BuildSegmentsSound(rs: seq<RowData>)
    requires WellRead(rs)
    ensures forall j :: 0 <= j < |Build(rs).segments| ==> SegmentFrom(rs, Build(rs).segments[j])
    decreases |rs|
  {
    if rs != [] {
      var n := |rs|;
      var p := rs[..n - 1];
      var old_segs := Build(p).segments;
      BuildSegmentsSound(p);
      BuildSegmentsComplete(p);
      UpdateFields(Build(p), rs[n - 1]);
      var segs := Build(rs).segments;
      forall j | 0 <= j < |segs|
        ensures SegmentFrom(rs, segs[j])
      {
        if j < |old_segs| {
          assert segs[j] == old_segs[j];
          SegmentFromLonger(p, rs, old_segs[j]);
        } else {
          var r := rs[n - 1];
          assert segs[j] == Segment(r.segmentName, NinePars(r.parsed));
          forall i' | 0 <= i' < n - 1 && SegmentRow(rs[i'])
            ensures rs[i'].segmentName != r.segmentName
          {
            assert p[i'] == rs[i'];
          }
          assert FirstSegmentRow(rs, n - 1, segs[j]);
        }
      }
    }
  }
}
