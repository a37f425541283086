/** The field quoting of formatCsv in the catalog sync, after RFC 4180 (section 2,
    rules 6 and 7): a field holding a special character is wrapped in quotes with
    its quotes doubled; fields are joined by commas and lines by LF. The lemmas read
    written rows back with the CSV reader of the score-photo page. */
module CsvQuoting {
  import opened JsText
  import opened CsvRows

  // ------------------------------------------------------------ one field

  /** The test formatCsv applies before quoting a field: a quote, a comma or LF. */
  predicate QuotedAsWritten(v: string) {
    exists k :: 0 <= k < |v| && (v[k] == '"' || v[k] == ',' || v[k] == '\n')
  }

  /** The field escaping exactly as formatCsv writes it: a field with a quote, a comma or
      LF comes back between quotes and longer, any other field unchanged. */
  function EscapeFieldAsWritten(v: string): (r: string)
    ensures r == v <==> !QuotedAsWritten(v)
    ensures QuotedAsWritten(v) ==> |r| >= |v| + 2 && r[0] == '"' && r[|r| - 1] == '"'
  {
    if QuotedAsWritten(v) then ['"'] + DoubleQuotes(v) + ['"'] else v
  }

  /** Whether a field holds a quote, a comma, LF or CR, scanning left to right. */
  predicate NeedsQuotes(v: string) {
    v != [] && (IsSpecial(v[0]) || NeedsQuotes(v[1..]))
  }

  lemma {:induction false} NeedsQuotesIff(v: string)
    ensures NeedsQuotes(v) <==> exists k :: 0 <= k < |v| && IsSpecial(v[k])
  {
    if v != [] {
      NeedsQuotesIff(v[1..]);
      if exists k :: 0 <= k < |v| && IsSpecial(v[k]) {
        var k :| 0 <= k < |v| && IsSpecial(v[k]);
        if k > 0 {
          assert v[1..][k - 1] == v[k];
        }
      }
      if exists k :: 0 <= k < |v| - 1 && IsSpecial(v[1..][k]) {
        var k :| 0 <= k < |v| - 1 && IsSpecial(v[1..][k]);
        assert v[k + 1] == v[1..][k];
      }
    }
  }

  lemma {:induction false} NeedsQuotesAppend(a: string, b: string)
    ensures NeedsQuotes(a + b) <==> NeedsQuotes(a) || NeedsQuotes(b)
    decreases |a|
  {
    if a == [] {
      assert a + b == b;
    } else {
      assert (a + b)[0] == a[0] && (a + b)[1..] == a[1..] + b;
      NeedsQuotesAppend(a[1..], b);
    }
  }

  /** The escaping with CR added to the characters that force quotes; it agrees with
      formatCsv on every field without CR. */
  function EscapeField(v: string): string {
    if NeedsQuotes(v) then ['"'] + DoubleQuotes(v) + ['"'] else v
  }

  lemma {:induction false} EscapeFieldAgrees(v: string)
    requires forall k :: 0 <= k < |v| ==> v[k] != '\r'
    ensures EscapeField(v) == EscapeFieldAsWritten(v)
  {
    NeedsQuotesIff(v);
  }

  /** A written field followed by a comma, LF or the end of the text reads back as
      itself. */
  lemma {:induction false} ScanField(f: string, rest: string, st: ScanState)
    requires !st.inQuotes
    requires rest == [] || rest[0] == ',' || rest[0] == '\n'
    ensures Scan(EscapeField(f) + rest, st) == Scan(rest, st.(field := st.field + f))
  {
    NeedsQuotesIff(f);
    if NeedsQuotes(f) {
      ScanQuoted(f, rest, st);
    } else {
      ScanPlain(f, rest, st);
    }
  }

  /** formatCsv leaves a field bare when its only special character is CR. */
  lemma {:induction false} CrFieldBare(x: string, y: string)
    requires forall k :: 0 <= k < |x| ==> !IsSpecial(x[k])
    requires forall k :: 0 <= k < |y| ==> !IsSpecial(y[k])
    ensures EscapeFieldAsWritten(x + "\r" + y) == x + "\r" + y
  {
    var v := x + "\r" + y;
    assert !QuotedAsWritten(v) by {
      forall k | 0 <= k < |v|
        ensures !(v[k] == '"' || v[k] == ',' || v[k] == '\n')
      {
        if k < |x| {
          assert v[k] == x[k];
        } else if k > |x| {
          assert v[k] == y[k - |x| - 1];
        }
      }
    }
  }

  /** Outside quotes a CR that is not followed by LF closes the current row. */
  lemma {:induction false} ScanLoneCr(y: string, st: ScanState)
    requires !st.inQuotes && (y == [] || y[0] != '\n')
    ensures Scan(['\r'] + y, st) == Scan(y, PushRow(st))
  {
    var s := ['\r'] + y;
    assert s[0] == '\r' && s[1..] == y;
    assert Consumed(s, st) == 1 && Step(s, st) == PushRow(st);
  }

  /** A single plain, non-blank field read up to the end is one row. */
  lemma {:induction false} ScanLastField(y: string, rows: seq<seq<string>>)
    requires forall k :: 0 <= k < |y| ==> !IsSpecial(y[k])
    requires !IsBlank(y)
    ensures Scan(y, ScanState(rows, [], [], false)) == rows + [[y]]
  {
    var st := ScanState(rows, [], [], false);
    assert y + [] == y;
    ScanPlain(y, [], st);
    var st1 := st.(field := st.field + y);
    assert st.field + y == y;
    assert st1.row + [st1.field] == [y];
    TrimEmptyIffBlank(y);
    assert NonBlankRow([y]) by {
      assert Trim([y][0]) != [];
    }
    assert y != [];
    assert Finish(st1) == PushRow(st1).rows;
  }

  /** A field holding CR between two plain, non-blank pieces x and y is written bare
      by formatCsv, and the reader breaks the row at the CR: it comes back as the two
      rows [x] and [y]. */
  lemma {:induction false} CrSplitsRow(x: string, y: string)
    requires forall k :: 0 <= k < |x| ==> !IsSpecial(x[k])
    requires forall k :: 0 <= k < |y| ==> !IsSpecial(y[k])
    requires !IsBlank(x) && !IsBlank(y)
    ensures EscapeFieldAsWritten(x + "\r" + y) == x + "\r" + y
    ensures Scan(EscapeFieldAsWritten(x + "\r" + y), Start) == [[x], [y]]
  {
    CrFieldBare(x, y);
    var st1 := Start.(field := x);
    assert Scan(x + "\r" + y, Start) == Scan(['\r'] + y, st1) by {
      assert x + "\r" + y == x + (['\r'] + y);
      ScanPlain(x, ['\r'] + y, Start);
      assert Start.field + x == x;
    }
    assert Scan(['\r'] + y, st1) == Scan(y, ScanState([[x]], [], [], false)) by {
      assert y != [] && y[0] != '\n';
      ScanLoneCr(y, st1);
      assert st1.row + [st1.field] == [x];
      TrimEmptyIffBlank(x);
      assert NonBlankRow([x]) by {
        assert Trim([x][0]) != [];
      }
      assert [] + [[x]] == [[x]];
    }
    ScanLastField(y, [[x]]);
  }

  /** The smallest instance: the field "a", CR, "b" comes back as the rows ["a"] and ["b"]. */
  lemma {:induction false} CrFieldSplitsRow()
    ensures Scan(EscapeFieldAsWritten("a\rb"), Start) == [["a"], ["b"]]
  {
    assert "a" + "\r" + "b" == "a\rb";
    assert !IsBlank("a") by {
      assert !IsWhitespace("a"[0]);
    }
    assert !IsBlank("b") by {
      assert !IsWhitespace("b"[0]);
    }
    CrSplitsRow("a", "b");
  }

  // ------------------------------------------------------------ rows and lines

  function EscapeRow(fields: seq<string>): (r: seq<string>)
    ensures |r| == |fields|
  {
    seq(|fields|, k requires 0 <= k < |fields| => EscapeField(fields[k]))
  }

  /** The fields of a line escaped exactly as formatCsv writes them. */
  function EscapeRowAsWritten(fields: seq<string>): (r: seq<string>)
    ensures |r| == |fields|
  {
    seq(|fields|, k requires 0 <= k < |fields| => EscapeFieldAsWritten(fields[k]))
  }

  predicate NoCr(v: string) {
    forall k :: 0 <= k < |v| ==> v[k] != '\r'
  }

  /** On fields without CR the two escapings write the same line. */
  lemma {:induction false} EscapeRowAgrees(fields: seq<string>)
    requires forall j :: 0 <= j < |fields| ==> NoCr(fields[j])
    ensures EscapeRowAsWritten(fields) == EscapeRow(fields)
  {
    forall j | 0 <= j < |fields|
      ensures EscapeRowAsWritten(fields)[j] == EscapeRow(fields)[j]
    {
      EscapeFieldAgrees(fields[j]);
    }
  }

  /** A line: the escaped fields separated by commas. */
  function EncodeRow(fields: seq<string>): string
    decreases |fields|
  {
    if fields == [] then []
    else if |fields| == 1 then EscapeField(fields[0])
    else EscapeField(fields[0]) + [','] + EncodeRow(fields[1..])
  }

  /** The line is escaped.join(','). */
  lemma {:induction false} EncodeRowJoin(fields: seq<string>)
    ensures EncodeRow(fields) == Join(EscapeRow(fields), ",")
    decreases |fields|
  {
    if |fields| > 1 {
      EncodeRowJoin(fields[1..]);
      assert EscapeRow(fields)[1..] == EscapeRow(fields[1..]);
    }
  }

  /** The rows with a non-blank field, in order. */
  function NonBlankRows(rows: seq<seq<string>>): (r: seq<seq<string>>)
    ensures |r| <= |rows|
  {
    if rows == [] then []
    else (if NonBlankRow(rows[0]) then [rows[0]] else []) + NonBlankRows(rows[1..])
  }

  /** Outside quotes a comma closes the current field. */
  lemma {:induction false} ScanComma(tail: string, st: ScanState)
    requires !st.inQuotes
    ensures Scan([','] + tail, st) == Scan(tail, st.(row := st.row + [st.field], field := []))
  {
    var s := [','] + tail;
    assert s[0] == ',' && s[1..] == tail;
    assert Consumed(s, st) == 1 && Step(s, st) == st.(row := st.row + [st.field], field := []);
  }

  /** Outside quotes LF closes the current row. */
  lemma {:induction false} ScanNewline(tail: string, st: ScanState)
    requires !st.inQuotes
    ensures Scan(['\n'] + tail, st) == Scan(tail, PushRow(st))
  {
    var s := ['\n'] + tail;
    assert s[0] == '\n' && s[1..] == tail;
    assert Consumed(s, st) == 1 && Step(s, st) == PushRow(st);
  }

  /** A written field and the comma after it close the field. */
  lemma {:induction false} ScanFieldComma(f: string, tail: string, st: ScanState)
    requires !st.inQuotes && st.field == []
    ensures Scan(EscapeField(f) + ([','] + tail), st) == Scan(tail, st.(row := st.row + [f]))
  {
    ScanField(f, [','] + tail, st);
    var st1 := st.(field := st.field + f);
    assert st.field + f == f;
    ScanComma(tail, st1);
    assert st1.(row := st1.row + [st1.field], field := []) == st.(row := st.row + [f]);
  }

  /** A written row followed by LF or the end of the text leaves its fields in the
      reader's current row and field. */
  lemma {:induction false} ScanRow(fields: seq<string>, rest: string, st: ScanState)
    requires |fields| > 0 && !st.inQuotes && st.field == []
    requires rest == [] || rest[0] == '\n'
    ensures Scan(EncodeRow(fields) + rest, st)
         == Scan(rest, st.(row := st.row + fields[..|fields| - 1], field := fields[|fields| - 1]))
    decreases |fields|
  {
    var n := |fields|;
    if n == 1 {
      ScanField(fields[0], rest, st);
      assert st.(field := st.field + fields[0]) == st.(row := st.row + fields[..0], field := fields[0]);
    } else {
      var st2 := st.(row := st.row + [fields[0]]);
      ScanRowStep(fields, rest, st);
      ScanRow(fields[1..], rest, st2);
      RowAfterFirst(fields, st);
    }
  }

  /** Reading the first field of a row with more fields, and the comma after it. */
  lemma {:induction false} ScanRowStep(fields: seq<string>, rest: string, st: ScanState)
    requires |fields| > 1 && !st.inQuotes && st.field == []
    ensures Scan(EncodeRow(fields) + rest, st) == Scan(EncodeRow(fields[1..]) + rest, st.(row := st.row + [fields[0]]))
  {
    var tail := EncodeRow(fields[1..]);
    assert EncodeRow(fields) + rest == EscapeField(fields[0]) + ([','] + (tail + rest));
    ScanFieldComma(fields[0], tail + rest, st);
  }

  /** The reader's state after the other fields, given the first one was read. */
  lemma {:induction false} RowAfterFirst(fields: seq<string>, st: ScanState)
    requires |fields| > 1
    ensures st.(row := st.row + [fields[0]]).(row := st.row + [fields[0]] + fields[1..][..|fields| - 2], field := fields[1..][|fields| - 2])
         == st.(row := st.row + fields[..|fields| - 1], field := fields[|fields| - 1])
  {
    assert st.row + [fields[0]] + fields[1..][..|fields| - 2] == st.row + fields[..|fields| - 1];
  }

  /** The text: the lines separated by LF. */
  function EncodeTable(rows: seq<seq<string>>): string
    decreases |rows|
  {
    if rows == [] then []
    else if |rows| == 1 then EncodeRow(rows[0])
    else EncodeRow(rows[0]) + ['\n'] + EncodeTable(rows[1..])
  }

  /** The lines of the text, one per row. */
  function EncodeLines(rows: seq<seq<string>>): (r: seq<string>)
    ensures |r| == |rows|
  {
    seq(|rows|, k requires 0 <= k < |rows| => EncodeRow(rows[k]))
  }

  /** The text is lines.join('\n'). */
  lemma {:induction false} EncodeTableJoin(rows: seq<seq<string>>)
    ensures EncodeTable(rows) == Join(EncodeLines(rows), "\n")
    decreases |rows|
  {
    if |rows| > 1 {
      EncodeTableJoin(rows[1..]);
      assert EncodeLines(rows)[1..] == EncodeLines(rows[1..]);
    }
  }

  /** The last row of the text, read up to the end. */
  lemma {:induction false} ScanLastRow(r: seq<string>, st: ScanState)
    requires |r| > 0 && !st.inQuotes && st.row == [] && st.field == []
    ensures Scan(EncodeRow(r), st) == st.rows + KeptFirst(r)
  {
    var n := |r|;
    var st1 := st.(row := r[..n - 1], field := r[n - 1]);
    assert EncodeRow(r) + [] == EncodeRow(r);
    ScanRow(r, [], st);
    assert st.row + r[..n - 1] == r[..n - 1];
    assert st1.row + [st1.field] == r;
    if n == 1 && r[0] == [] {
      assert !NonBlankRow(r) by {
        forall k | 0 <= k < |r|
          ensures Trim(r[k]) == []
        {
          assert k == 0;
        }
      }
    } else {
      assert Finish(st1) == PushRow(st1).rows;
    }
  }

  /** A row that is not the last one, with the LF after it. */
  lemma {:induction false} ScanInnerRow(r: seq<string>, tail: string, st: ScanState)
    requires |r| > 0 && !st.inQuotes && st.row == [] && st.field == []
    ensures Scan(EncodeRow(r) + ['\n'] + tail, st) == Scan(tail, st.(rows := st.rows + KeptFirst(r)))
  {
    var n := |r|;
    var st1 := st.(row := r[..n - 1], field := r[n - 1]);
    assert EncodeRow(r) + ['\n'] + tail == EncodeRow(r) + (['\n'] + tail);
    ScanRow(r, ['\n'] + tail, st);
    assert st.row + r[..n - 1] == r[..n - 1];
    ScanNewline(tail, st1);
    assert st1.row + [st1.field] == r;
    assert PushRow(st1) == st.(rows := st.rows + KeptFirst(r));
  }

  /** The rows kept from the first row of a table. */
  function KeptFirst(r: seq<string>): seq<seq<string>> {
    if NonBlankRow(r) then [r] else []
  }

  /** Reading the first line of a table with more lines. */
  lemma {:induction false} ScanTableStep(rows: seq<seq<string>>, st: ScanState)
    requires |rows| > 1 && |rows[0]| > 0
    requires !st.inQuotes && st.row == [] && st.field == []
    ensures Scan(EncodeTable(rows), st) == Scan(EncodeTable(rows[1..]), st.(rows := st.rows + KeptFirst(rows[0])))
  {
    assert EncodeTable(rows) == EncodeRow(rows[0]) + ['\n'] + EncodeTable(rows[1..]);
    ScanInnerRow(rows[0], EncodeTable(rows[1..]), st);
  }

  lemma {:induction false} NonBlankRowsCons(rows: seq<seq<string>>)
    requires rows != []
    ensures NonBlankRows(rows) == KeptFirst(rows[0]) + NonBlankRows(rows[1..])
  {
  }

  /** The table of at most one row. */
  lemma {:induction false} ScanTableShort(rows: seq<seq<string>>, st: ScanState)
    requires |rows| <= 1 && (rows != [] ==> |rows[0]| > 0)
    requires !st.inQuotes && st.row == [] && st.field == []
    ensures Scan(EncodeTable(rows), st) == st.rows + NonBlankRows(rows)
  {
    if rows == [] {
      assert st.rows + [] == st.rows;
    } else {
      ScanLastRow(rows[0], st);
      NonBlankRowsCons(rows);
      assert NonBlankRows(rows[1..]) == [];
      assert KeptFirst(rows[0]) + [] == KeptFirst(rows[0]);
    }
  }

  /** The table of several rows, given what the rows after the first read back as. */
  lemma {:induction false} ScanTableCons(rows: seq<seq<string>>, st: ScanState)
    requires |rows| > 1 && |rows[0]| > 0
    requires !st.inQuotes && st.row == [] && st.field == []
    requires Scan(EncodeTable(rows[1..]), st.(rows := st.rows + KeptFirst(rows[0])))
          == st.rows + KeptFirst(rows[0]) + NonBlankRows(rows[1..])
    ensures Scan(EncodeTable(rows), st) == st.rows + KeptFirst(rows[0]) + NonBlankRows(rows[1..])
  {
    ScanTableStep(rows, st);
  }

  /** The rows kept from a table of several rows. */
  lemma {:induction false} KeptRowsCons(rows: seq<seq<string>>, st: ScanState)
    requires |rows| > 1 && |rows[0]| > 0
    requires !st.inQuotes && st.row == [] && st.field == []
    ensures st.rows + KeptFirst(rows[0]) + NonBlankRows(rows[1..]) == st.rows + NonBlankRows(rows)
  {
    NonBlankRowsCons(rows);
    assert st.rows + KeptFirst(rows[0]) + NonBlankRows(rows[1..]) == st.rows + (KeptFirst(rows[0]) + NonBlankRows(rows[1..]));
  }

  /** Reading the written rows from a fresh row gives the non-blank rows. */
  lemma {:induction false} ScanTable(rows: seq<seq<string>>, st: ScanState)
    requires forall k :: 0 <= k < |rows| ==> |rows[k]| > 0
    requires !st.inQuotes && st.row == [] && st.field == []
    ensures Scan(EncodeTable(rows), st) == st.rows + NonBlankRows(rows)
    decreases |rows|
  {
    if |rows| <= 1 {
      ScanTableShort(rows, st);
    } else {
      ScanTable(rows[1..], st.(rows := st.rows + KeptFirst(rows[0])));
      ScanTableCons(rows, st);
      KeptRowsCons(rows, st);
    }
  }

  /** Written rows read back as themselves, blank rows excepted: the quoting round trip. */
  lemma {:induction false} TableRoundTrip(rows: seq<seq<string>>)
    requires forall k :: 0 <= k < |rows| ==> |rows[k]| > 0
    ensures Scan(EncodeTable(rows), Start) == NonBlankRows(rows)
  {
    ScanTable(rows, Start);
    assert Start.rows + NonBlankRows(rows) == NonBlankRows(rows);
  }
}
