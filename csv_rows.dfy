/** The hand-written CSV reader of the score-photo page (parseCsvRows): a scan over
    the characters with a current row, a current field and an in-quotes flag. */
module CsvRows {
  import opened JsText

  /** The reader's variables between two characters. */
  datatype ScanState = ScanState(rows: seq<seq<string>>, row: seq<string>, field: string, inQuotes: bool)

  const Start := ScanState([], [], [], false)

  /** A row is kept when one of its fields is not blank after trimming. */
  predicate NonBlankRow(row: seq<string>) {
    exists k :: 0 <= k < |row| && Trim(row[k]) != []
  }

  /** pushRow: the field closes the row, the row is kept unless it is blank, and a new
      row starts. */
  function PushRow(st: ScanState): ScanState {
    var row := st.row + [st.field];
    st.(rows := if NonBlankRow(row) then st.rows + [row] else st.rows, row := [], field := [])
  }

  /** After the last character a pending field or row is pushed. */
  function Finish(st: ScanState): seq<seq<string>> {
    if |st.field| > 0 || |st.row| > 0 then PushRow(st).rows else st.rows
  }

  /** How many characters the reader takes at the head of s: two for a doubled quote
      inside quotes and for CR LF outside them, one otherwise. */
  function Consumed(s: string, st: ScanState): (n: nat)
    requires s != []
    ensures 1 <= n <= |s|
  {
    if |s| > 1 && ((st.inQuotes && s[0] == '"' && s[1] == '"') || (!st.inQuotes && s[0] == '\r' && s[1] == '\n'))
    then 2 else 1
  }

  /** The state after the head of s. Inside quotes a doubled quote is one quote
      character and a single quote closes the quotes; outside them a quote opens
      them, a comma ends the field, and LF, CR or CR LF ends the row. */
  function Step(s: string, st: ScanState): ScanState
    requires s != []
  {
    var c := s[0];
    if st.inQuotes then
      if c == '"' then
        if |s| > 1 && s[1] == '"' then st.(field := st.field + ['"']) else st.(inQuotes := false)
      else st.(field := st.field + [c])
    else if c == '"' then st.(inQuotes := true)
    else if c == ',' then st.(row := st.row + [st.field], field := [])
    else if c == '\n' || c == '\r' then PushRow(st)
    else st.(field := st.field + [c])
  }

  /** The rows read from the rest s of the text, starting in state st. */
  function Scan(s: string, st: ScanState): seq<seq<string>>
    decreases |s|
  {
    if s == [] then Finish(st) else Scan(s[Consumed(s, st)..], Step(s, st))
  }

  /** parseCsvRows. */
  method ParseCsvRows(text: string) returns (rows: seq<seq<string>>)
    ensures rows == Scan(text, Start)
  {
    rows := [];
    var row: seq<string> := [];
    var field: string := [];
    var inQuotes := false;
    var i := 0;
    while i < |text|
      invariant 0 <= i <= |text|
      invariant Scan(text[i..], ScanState(rows, row, field, inQuotes)) == Scan(text, Start)
    {
      var c := text[i];
      assert text[i..][0] == c && text[i..][1..] == text[i + 1..];
      if inQuotes {
        if c == '"' {
          if i + 1 < |text| && text[i + 1] == '"' {
            assert text[i..][2..] == text[i + 2..];
            field := field + ['"'];
            i := i + 2;
          } else {
            inQuotes := false;
            i := i + 1;
          }
        } else {
          field := field + [c];
          i := i + 1;
        }
      } else if c == '"' {
        inQuotes := true;
        i := i + 1;
      } else if c == ',' {
        row := row + [field];
        field := [];
        i := i + 1;
      } else if c == '\n' || c == '\r' {
        if c == '\r' && i + 1 < |text| && text[i + 1] == '\n' {
          assert text[i..][2..] == text[i + 2..];
          i := i + 1;
        }
        row := row + [field];
        if NonBlankRow(row) {
          rows := rows + [row];
        }
        row := [];
        field := [];
        i := i + 1;
      } else {
        field := field + [c];
        i := i + 1;
      }
    }
    if |field| > 0 || |row| > 0 {
      row := row + [field];
      if NonBlankRow(row) {
        rows := rows + [row];
      }
    }
  }

  /** Rows made of blank fields only are never returned. */
  lemma {:induction false} ScanNonBlank(s: string, st: ScanState)
    requires forall k :: 0 <= k < |st.rows| ==> NonBlankRow(st.rows[k])
    ensures forall k :: 0 <= k < |Scan(s, st)| ==> NonBlankRow(Scan(s, st)[k])
    decreases |s|
  {
    if s != [] {
      ScanNonBlank(s[Consumed(s, st)..], Step(s, st));
    }
  }

  /** Rows already read are kept: the result extends them. */
  lemma {:induction false} ScanExtends(s: string, st: ScanState)
    ensures st.rows <= Scan(s, st)
    decreases |s|
  {
    if s != [] {
      ScanExtends(s[Consumed(s, st)..], Step(s, st));
    }
  }

  /** Outside quotes CR LF is one row break, the same as a lone LF. */
  lemma {:induction false} CrLfIsOneBreak(s: string, st: ScanState)
    requires !st.inQuotes
    ensures Scan("\r\n" + s, st) == Scan("\n" + s, st) == Scan(s, PushRow(st))
  {
    assert ("\r\n" + s)[2..] == s;
    assert ("\n" + s)[1..] == s;
  }

  // ------------------------------------------------------ reading one field

  /** Characters that make a field need quotes when it is written. */
  predicate IsSpecial(c: char) {
    c == '"' || c == ',' || c == '\n' || c == '\r'
  }

  /** A field without special characters is read character by character. */
  lemma {:induction false} ScanPlain(f: string, rest: string, st: ScanState)
    requires !st.inQuotes
    requires forall k :: 0 <= k < |f| ==> !IsSpecial(f[k])
    ensures Scan(f + rest, st) == Scan(rest, st.(field := st.field + f))
    decreases |f|
  {
    if f == [] {
      assert f + rest == rest && st.field + f == st.field;
    } else {
      assert (f + rest)[0] == f[0] && (f + rest)[1..] == f[1..] + rest;
      ScanPlain(f[1..], rest, st.(field := st.field + [f[0]]));
      assert st.field + [f[0]] + f[1..] == st.field + f;
    }
  }

  /** The body of a quoted field: every quote doubled. */
  function DoubleQuotes(f: string): (r: string)
    ensures |r| >= |f|
  {
    if f == [] then [] else (if f[0] == '"' then "\"\"" else [f[0]]) + DoubleQuotes(f[1..])
  }

  /** Inside quotes, a body with doubled quotes followed by a closing quote that is not
      followed by another quote reads back as the original field. */
  lemma {:induction false} ScanQuotedBody(f: string, rest: string, st: ScanState)
    requires st.inQuotes
    requires rest == [] || rest[0] != '"'
    ensures Scan(DoubleQuotes(f) + ['"'] + rest, st) == Scan(rest, st.(field := st.field + f, inQuotes := false))
    decreases |f|
  {
    var s := DoubleQuotes(f) + ['"'] + rest;
    if f == [] {
      assert s == ['"'] + rest;
      assert s[0] == '"' && s[1..] == rest && (|s| > 1 ==> s[1] != '"');
      assert Consumed(s, st) == 1 && Step(s, st) == st.(inQuotes := false);
      assert st.field + f == st.field;
    } else {
      var t := DoubleQuotes(f[1..]) + ['"'] + rest;
      var c := f[0];
      var next := st.(field := st.field + [c]);
      if c == '"' {
        assert s == ['"', '"'] + t;
        assert s[0] == '"' && s[1] == '"' && s[2..] == t;
        assert Consumed(s, st) == 2 && Step(s, st) == next;
      } else {
        assert s == [c] + t;
        assert s[0] == c && s[1..] == t;
        assert Consumed(s, st) == 1 && Step(s, st) == next;
      }
      assert Scan(s, st) == Scan(t, next);
      ScanQuotedBody(f[1..], rest, next);
      assert st.field + [c] + f[1..] == st.field + f;
    }
  }

  /** A quoted field reads back as its content. */
  lemma {:induction false} ScanQuoted(f: string, rest: string, st: ScanState)
    requires !st.inQuotes
    requires rest == [] || rest[0] != '"'
    ensures Scan(['"'] + DoubleQuotes(f) + ['"'] + rest, st) == Scan(rest, st.(field := st.field + f))
  {
    var body := DoubleQuotes(f) + ['"'] + rest;
    var open := st.(inQuotes := true);
    assert Scan(['"'] + DoubleQuotes(f) + ['"'] + rest, st) == Scan(body, open) by {
      var s := ['"'] + DoubleQuotes(f) + ['"'] + rest;
      assert s[0] == '"' && s[1..] == body;
    }
    ScanQuotedBody(f, rest, open);
    assert open.(field := open.field + f, inQuotes := false) == st.(field := st.field + f);
  }
}
