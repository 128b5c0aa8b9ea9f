/** The audit log export: rows of comma-separated fields, and a reader by RFC 4180, section 2,
    rules 5 to 7, with a line feed between records. */
module CsvExport {
  import opened Options
  import opened Text

  /** One audit entry as the page has it: the time and the duration already as text. */
  datatype Entry = Entry(time: string, username: string, operation: string, target: string,
                         success: bool, result: string, duration: string)

  const HEADER := ["Time", "User", "Operation", "Target", "Result", "Duration(ms)"]
  const BOM: char := '\U{FEFF}'

  predicate NeedsQuotes(v: string) {
    ',' in v || '"' in v || '\n' in v
  }

  /** Every double quote doubled. */
  function Doubled(v: string): string {
    if v == "" then "" else (if v[0] == '"' then "\"\"" else [v[0]]) + Doubled(v[1..])
  }

  function EscapeCsv(v: string): string {
    if NeedsQuotes(v) then "\"" + Doubled(v) + "\"" else v
  }

  function ResultText(e: Entry): string {
    (if e.success then "success" else "failed") + (if e.result != "" then ": " + e.result else "")
  }

  /** The six fields of a record. */
  function FieldsOf(e: Entry): seq<string> {
    [e.time, e.username, e.operation, e.target, ResultText(e), e.duration]
  }

  function RowText(e: Entry): string {
    Join([EscapeCsv(e.time), EscapeCsv(e.username), EscapeCsv(e.operation), EscapeCsv(e.target),
          EscapeCsv(ResultText(e)), e.duration], ",")
  }

  function RowTexts(entries: seq<Entry>): (rows: seq<string>)
    ensures |rows| == |entries|
  {
    if entries == [] then [] else RowTexts(entries[..|entries| - 1]) + [RowText(entries[|entries| - 1])]
  }

  function ExportText(entries: seq<Entry>): string {
    [BOM] + Join([Join(HEADER, ",")] + RowTexts(entries), "\n")
  }

  method ExportRow(e: Entry) returns (row: string)
    ensures row == RowText(e)
  {
    var result := if e.success then "success" else "failed";
    if e.result != "" {
      result := result + (": " + e.result);
    }
    assert result == ResultText(e);
    row := Join([EscapeCsv(e.time), EscapeCsv(e.username), EscapeCsv(e.operation),
                 EscapeCsv(e.target), EscapeCsv(result), e.duration], ",");
  }

  /** The exported file, unless there is nothing to export. */
  method ExportCsv(entries: seq<Entry>) returns (content: Option<string>)
    ensures content == if entries == [] then None else Some(ExportText(entries))
  {
    if |entries| == 0 {
      return None;
    }
    var csvRows := [Join(HEADER, ",")];
    for i := 0 to |entries|
      invariant csvRows == [Join(HEADER, ",")] + RowTexts(entries[..i])
    {
      assert entries[..i + 1][..i] == entries[..i];
      var row := ExportRow(entries[i]);
      csvRows := csvRows + [row];
    }
    assert entries[..|entries|] == entries;
    content := Some([BOM] + Join(csvRows, "\n"));
  }

  // -------------------------------------------------------------- reading

  /** Where the reader stands in a field: before it, in a bare one, inside quotes, or after a quote
      that may have closed it. */
  datatype Mode = Start | Bare | Quoted | Closed

  /** Reads records from the rest of a text; a quote in a bare field, text after a closing quote and
      an unclosed quote are malformed. */
  function Read(s: string, rows: seq<seq<string>>, row: seq<string>, field: string, mode: Mode): Option<seq<seq<string>>>
    decreases |s|
  {
    if s == "" then (if mode == Quoted then None else Some(rows + [row + [field]]))
    else if mode == Quoted then
      if s[0] == '"' then Read(s[1..], rows, row, field, Closed) else Read(s[1..], rows, row, field + [s[0]], Quoted)
    else if s[0] == ',' then Read(s[1..], rows, row + [field], "", Start)
    else if s[0] == '\n' then Read(s[1..], rows + [row + [field]], [], "", Start)
    else if s[0] == '"' then
      (if mode == Bare then None
       else if mode == Closed then Read(s[1..], rows, row, field + "\"", Quoted)
       else Read(s[1..], rows, row, field, Quoted))
    else if mode == Closed then None
    else Read(s[1..], rows, row, field + [s[0]], Bare)
  }

  function ReadCsv(text: string): Option<seq<seq<string>>> {
    Read(text, [], [], "", Start)
  }

  // ----------------------------------------------------------- round trip

  predicate EndsField(rest: string) {
    rest == "" || rest[0] == ',' || rest[0] == '\n'
  }

  /** What the reader does once a field is complete. */
  function Complete(rest: string, rows: seq<seq<string>>, row: seq<string>, field: string): Option<seq<seq<string>>>
    requires EndsField(rest)
  {
    if rest == "" then Some(rows + [row + [field]])
    else if rest[0] == ',' then Read(rest[1..], rows, row + [field], "", Start)
    else Read(rest[1..], rows + [row + [field]], [], "", Start)
  }

  lemma {:induction false} ReadQuoted(v: string, rest: string, rows: seq<seq<string>>, row: seq<string>, field: string)
    requires EndsField(rest)
    ensures Read(Doubled(v) + "\"" + rest, rows, row, field, Quoted) == Complete(rest, rows, row, field + v)
    decreases |v|
  {
    var s := Doubled(v) + "\"" + rest;
    if v == "" {
      assert s == "\"" + rest && s[1..] == rest;
      assert field + v == field;
    } else {
      var tail := Doubled(v[1..]) + "\"" + rest;
      ReadQuoted(v[1..], rest, rows, row, field + [v[0]]);
      assert field + [v[0]] + v[1..] == field + v;
      if v[0] == '"' {
        assert s == ['"', '"'] + tail && s[1..] == ['"'] + tail && s[1..][1..] == tail;
      } else {
        assert s == [v[0]] + tail && s[1..] == tail;
      }
    }
  }

  lemma {:induction false} ReadBare(v: string, rest: string, rows: seq<seq<string>>, row: seq<string>, field: string, mode: Mode)
    requires EndsField(rest) && !NeedsQuotes(v) && (mode == Start || mode == Bare)
    ensures Read(v + rest, rows, row, field, mode) == Complete(rest, rows, row, field + v)
    decreases |v|
  {
    if v == "" {
      assert v + rest == rest && field + v == field;
    } else {
      assert v[0] in v;
      assert v == [v[0]] + v[1..];
      ReadBare(v[1..], rest, rows, row, field + [v[0]], Bare);
      assert (v + rest)[1..] == v[1..] + rest && (v + rest)[0] == v[0];
      assert field + [v[0]] + v[1..] == field + v;
    }
  }

  lemma OpenQuote(s: string, rows: seq<seq<string>>, row: seq<string>)
    ensures Read("\"" + s, rows, row, "", Start) == Read(s, rows, row, "", Quoted)
  {
    assert ("\"" + s)[1..] == s;
  }

  /** An escaped field reads back as the field, whatever it contains. */
  lemma ReadField(v: string, rest: string, rows: seq<seq<string>>, row: seq<string>)
    requires EndsField(rest)
    ensures Read(EscapeCsv(v) + rest, rows, row, "", Start) == Complete(rest, rows, row, v)
  {
    assert "" + v == v;
    if NeedsQuotes(v) {
      ReadQuoted(v, rest, rows, row, "");
      OpenQuote(Doubled(v) + "\"" + rest, rows, row);
      assert EscapeCsv(v) + rest == "\"" + (Doubled(v) + "\"" + rest);
    } else {
      ReadBare(v, rest, rows, row, "", Start);
    }
  }

  function Escaped(fields: seq<string>): (r: seq<string>)
    ensures |r| == |fields|
  {
    if fields == [] then [] else [EscapeCsv(fields[0])] + Escaped(fields[1..])
  }

  /** A row of escaped fields reads back as the fields. */
  lemma {:induction false} ReadRow(fields: seq<string>, rest: string, rows: seq<seq<string>>, row: seq<string>)
    requires fields != [] && (rest == "" || rest[0] == '\n')
    ensures Read(Join(Escaped(fields), ",") + rest, rows, row, "", Start)
            == if rest == "" then Some(rows + [row + fields]) else Read(rest[1..], rows + [row + fields], [], "", Start)
    decreases |fields|
  {
    var v, text := fields[0], Join(Escaped(fields), ",");
    if |fields| == 1 {
      assert fields == [v] && text == EscapeCsv(v);
      ReadField(v, rest, rows, row);
    } else {
      var tail := Join(Escaped(fields[1..]), ",") + rest;
      assert Escaped(fields)[1..] == Escaped(fields[1..]);
      assert text + rest == EscapeCsv(v) + ("," + tail);
      assert ("," + tail)[1..] == tail;
      ReadField(v, "," + tail, rows, row);
      ReadRow(fields[1..], rest, rows, row + [v]);
      assert row + [v] + fields[1..] == row + fields;
    }
  }

  function RowsOf(records: seq<seq<string>>): (r: seq<string>)
    ensures |r| == |records| && forall i :: 0 <= i < |r| ==> r[i] == Join(Escaped(records[i]), ",")
  {
    seq(|records|, i requires 0 <= i < |records| => Join(Escaped(records[i]), ","))
  }

  lemma {:induction false} ReadRows(records: seq<seq<string>>, rows: seq<seq<string>>)
    requires records != [] && forall i :: 0 <= i < |records| ==> records[i] != []
    ensures Read(Join(RowsOf(records), "\n"), rows, [], "", Start) == Some(rows + records)
    decreases |records|
  {
    var first, text := records[0], Join(RowsOf(records), "\n");
    assert [] + first == first;
    if |records| == 1 {
      assert text + "" == text && records == [first];
      ReadRow(first, "", rows, []);
    } else {
      var tail := Join(RowsOf(records[1..]), "\n");
      assert RowsOf(records)[1..] == RowsOf(records[1..]);
      assert text == Join(Escaped(first), ",") + ("\n" + tail) && ("\n" + tail)[1..] == tail;
      ReadRow(first, "\n" + tail, rows, []);
      ReadRows(records[1..], rows + [first]);
      assert rows + [first] + records[1..] == rows + records;
    }
  }

  /** The records of an export: the header, then the six fields of each entry. */
  function Records(header: seq<string>, entries: seq<Entry>): (r: seq<seq<string>>)
    ensures |r| == |entries| + 1 && r[0] == header
    ensures forall i :: 0 <= i < |entries| ==> r[i + 1] == FieldsOf(entries[i])
  {
    [header] + seq(|entries|, i requires 0 <= i < |entries| => FieldsOf(entries[i]))
  }

  lemma JoinSix(a: string, b: string, c: string, d: string, e: string, f: string)
    ensures Escaped([a, b, c, d, e, f])
            == [EscapeCsv(a), EscapeCsv(b), EscapeCsv(c), EscapeCsv(d), EscapeCsv(e), EscapeCsv(f)]
  {
    assert [a, b, c, d, e, f][1..] == [b, c, d, e, f] && [b, c, d, e, f][1..] == [c, d, e, f];
    assert [c, d, e, f][1..] == [d, e, f] && [d, e, f][1..] == [e, f] && [e, f][1..] == [f] && [f][1..] == [];
    assert Escaped([e, f]) == [EscapeCsv(e), EscapeCsv(f)];
    assert Escaped([d, e, f]) == [EscapeCsv(d), EscapeCsv(e), EscapeCsv(f)];
    assert Escaped([c, d, e, f]) == [EscapeCsv(c), EscapeCsv(d), EscapeCsv(e), EscapeCsv(f)];
  }

  lemma HeaderNamesArePlain()
    ensures forall i :: 0 <= i < |HEADER| ==> !NeedsQuotes(HEADER[i])
  {
  }

  lemma {:induction false} PlainEscaped(fields: seq<string>)
    requires forall i :: 0 <= i < |fields| ==> !NeedsQuotes(fields[i])
    ensures Escaped(fields) == fields
  {
    if fields != [] {
      PlainEscaped(fields[1..]);
    }
  }

  lemma RecordRow(e: Entry)
    requires !NeedsQuotes(e.duration)
    ensures Join(Escaped(FieldsOf(e)), ",") == RowText(e)
  {
    JoinSix(e.time, e.username, e.operation, e.target, ResultText(e), e.duration);
  }

  lemma RowsOfSnoc(records: seq<seq<string>>, last: seq<string>)
    ensures RowsOf(records + [last]) == RowsOf(records) + [Join(Escaped(last), ",")]
  {
  }

  lemma RecordsSnoc(header: seq<string>, init: seq<Entry>, last: Entry)
    ensures Records(header, init + [last]) == Records(header, init) + [FieldsOf(last)]
  {
    var all, longer := Records(header, init + [last]), Records(header, init) + [FieldsOf(last)];
    forall j | 0 < j < |all| ensures all[j] == longer[j] {
      assert all[(j - 1) + 1] == FieldsOf((init + [last])[j - 1]);
      assert j <= |init| ==> Records(header, init)[(j - 1) + 1] == FieldsOf(init[j - 1]);
    }
  }

  lemma RowTextsSnoc(init: seq<Entry>, last: Entry)
    ensures RowTexts(init + [last]) == RowTexts(init) + [RowText(last)]
  {
    assert (init + [last])[..|init|] == init;
  }

  lemma {:induction false} RowsOfRecords(header: seq<string>, entries: seq<Entry>)
    requires Escaped(header) == header
    requires forall i :: 0 <= i < |entries| ==> !NeedsQuotes(entries[i].duration)
    ensures RowsOf(Records(header, entries)) == [Join(header, ",")] + RowTexts(entries)
  {
    if entries == [] {
      RowsOfSnoc([], header);
      assert [] + [header] == Records(header, entries);
    } else {
      var init, last := entries[..|entries| - 1], entries[|entries| - 1];
      assert entries == init + [last];
      RowsOfRecords(header, init);
      RecordsSnoc(header, init, last);
      RowsOfSnoc(Records(header, init), FieldsOf(last));
      RecordRow(last);
      RowTextsSnoc(init, last);
    }
  }

  lemma RecordsHaveFields(header: seq<string>, entries: seq<Entry>)
    requires header != []
    ensures forall i :: 0 <= i < |Records(header, entries)| ==> Records(header, entries)[i] != []
  {
    var records := Records(header, entries);
    forall i | 0 < i < |records| ensures records[i] != [] {
      assert records[(i - 1) + 1] == FieldsOf(entries[i - 1]);
    }
  }

  lemma TextReadsBack(header: seq<string>, entries: seq<Entry>)
    requires header != [] && Escaped(header) == header
    requires forall i :: 0 <= i < |entries| ==> !NeedsQuotes(entries[i].duration)
    ensures ReadCsv(Join([Join(header, ",")] + RowTexts(entries), "\n")) == Some(Records(header, entries))
  {
    RowsOfRecords(header, entries);
    RecordsHaveFields(header, entries);
    ReadRows(Records(header, entries), []);
    assert [] + Records(header, entries) == Records(header, entries);
  }

  /** The six columns of an entry, as they read. */
  predicate IsRecordOf(row: seq<string>, e: Entry) {
    && |row| == 6
    && row[0] == e.time && row[1] == e.username && row[2] == e.operation && row[3] == e.target && row[5] == e.duration
    && (e.success && e.result == "" ==> row[4] == "success")
    && (e.success && e.result != "" ==> row[4] == "success: " + e.result)
    && (!e.success && e.result == "" ==> row[4] == "failed")
    && (!e.success && e.result != "" ==> row[4] == "failed: " + e.result)
  }

  lemma ResultReads(e: Entry)
    ensures IsRecordOf(FieldsOf(e), e)
  {
    assert "success" + "" == "success" && "failed" + "" == "failed";
    assert "success" + (": " + e.result) == "success: " + e.result && "failed" + (": " + e.result) == "failed: " + e.result;
  }

  lemma RecordsAre(entries: seq<Entry>)
    ensures var rows := Records(HEADER, entries);
            && |rows| == |entries| + 1 && rows[0] == ["Time", "User", "Operation", "Target", "Result", "Duration(ms)"]
            && forall i :: 0 < i < |rows| ==> IsRecordOf(rows[i], entries[i - 1])
  {
    var rows := Records(HEADER, entries);
    forall i | 0 < i < |rows| ensures IsRecordOf(rows[i], entries[i - 1]) {
      assert rows[(i - 1) + 1] == FieldsOf(entries[i - 1]);
      ResultReads(entries[i - 1]);
    }
  }

  /** The exported text is a byte order mark and a text that reads as the header and, for every entry,
      its time, user, operation, target, outcome and duration, whatever text they hold; only the
      duration is written as it is. */
  lemma ExportReadsBack(entries: seq<Entry>)
    requires forall i :: 0 <= i < |entries| ==> !NeedsQuotes(entries[i].duration)
    ensures var text := ExportText(entries);
            && text != "" && text[0] == '\U{FEFF}' && ReadCsv(text[1..]).Some?
            && var rows := ReadCsv(text[1..]).value;
               && |rows| == |entries| + 1 && rows[0] == ["Time", "User", "Operation", "Target", "Result", "Duration(ms)"]
               && forall i :: 0 < i < |rows| ==> IsRecordOf(rows[i], entries[i - 1])
  {
    TextIsRecords(entries);
    RecordsAre(entries);
  }

  lemma TextIsRecords(entries: seq<Entry>)
    requires forall i :: 0 <= i < |entries| ==> !NeedsQuotes(entries[i].duration)
    ensures ReadCsv(ExportText(entries)[1..]) == Some(Records(HEADER, entries))
  {
    HeaderNamesArePlain();
    PlainEscaped(HEADER);
    TextReadsBack(HEADER, entries);
    var text := Join([Join(HEADER, ",")] + RowTexts(entries), "\n");
    assert ([BOM] + text)[1..] == text;
  }
}
