/**
 CSV export and import of the quote list: the text `export_csv` writes, the
 lines Python's file iteration hands to `import_csv`, and the (text, author)
 records the import loop takes from them.
 */
module Transfer {
  import opened Csv
  import opened Store

  /** The column names `export_csv` writes first. */
  const HeaderFields: string := "text,author,created_at"

  /** The first line of every exported file. */
  const Header: string := HeaderFields + "\n"

  /** The exported line of one row. */
  function RowLine(r: Row): string {
    ExportLine(r.text, r.author, r.createdAt)
  }

  /** The exported lines of the rows, one per row and in order. */
  function RowLines(rows: seq<Row>): (r: seq<string>)
    ensures |r| == |rows|
    ensures forall k :: 0 <= k < |rows| ==> r[k] == RowLine(rows[k])
  {
    seq(|rows|, k requires 0 <= k < |rows| => RowLine(rows[k]))
  }

  /** The concatenated row lines. */
  function ExportBody(rows: seq<Row>): string {
    if rows == [] then "" else RowLine(rows[0]) + ExportBody(rows[1..])
  }

  /** Everything `export_csv` writes to the file. */
  function ExportText(rows: seq<Row>): string {
    Header + ExportBody(rows)
  }

  lemma {:induction false} ExportBodySnoc(rows: seq<Row>, r: Row)
    ensures ExportBody(rows + [r]) == ExportBody(rows) + RowLine(r)
  {
    if rows == [] {
      assert [] + [r] == [r];
      assert [r][1..] == [];
    } else {
      assert (rows + [r])[1..] == rows[1..] + [r];
      ExportBodySnoc(rows[1..], r);
    }
  }

  /** The export loop's step: row `i` appends its line to what was written before. */
  lemma ExportTextSnoc(rows: seq<Row>, i: nat)
    requires i < |rows|
    ensures ExportText(rows[..i + 1]) == ExportText(rows[..i]) + RowLine(rows[i])
  {
    assert rows[..i + 1] == rows[..i] + [rows[i]];
    ExportBodySnoc(rows[..i], rows[i]);
    assert Header + (ExportBody(rows[..i]) + RowLine(rows[i])) == Header + ExportBody(rows[..i]) + RowLine(rows[i]);
  }

  /** The first row's line heads the lines of the rows. */
  lemma RowLinesCons(rows: seq<Row>)
    requires rows != []
    ensures RowLines(rows) == [RowLine(rows[0])] + RowLines(rows[1..])
  {
    var a, b := RowLines(rows), [RowLine(rows[0])] + RowLines(rows[1..]);
    forall k | 0 <= k < |a| ensures a[k] == b[k] {
      if k > 0 {
        assert rows[1..][k - 1] == rows[k];
      }
    }
  }

  // ---------------------------------------------------------------------
  // Import: what the loop of `import_csv` does with each line.
  // ---------------------------------------------------------------------

  /** The text and author taken from a line's fields; a missing author is ''. */
  function Record(parts: seq<string>): (string, string)
    requires parts != []
  {
    (parts[0], if |parts| > 1 then parts[1] else "")
  }

  /** The record a parsed line yields: none when it has no fields. */
  function RecordOf(parts: seq<string>): seq<(string, string)> {
    if parts == [] then [] else [Record(parts)]
  }

  /** The record a line yields. */
  function LineRecord(line: string): seq<(string, string)> {
    RecordOf(Parse(line))
  }

  /** The records of the lines after the header, in order. */
  function BodyRecords(body: seq<string>): (r: seq<(string, string)>)
    ensures |r| <= |body|
  {
    if body == [] then []
    else BodyRecords(body[..|body| - 1]) + LineRecord(body[|body| - 1])
  }

  /** The records `import_csv` inserts: the first line is the header and is ignored. */
  function ImportRecords(lines: seq<string>): (r: seq<(string, string)>)
    ensures lines != [] ==> |r| <= |lines| - 1
  {
    if lines == [] then [] else BodyRecords(lines[1..])
  }

  /** The records of lines already parsed, in order. */
  function Records(ps: seq<seq<string>>): (r: seq<(string, string)>)
    ensures |r| <= |ps|
  {
    if ps == [] then []
    else Records(ps[..|ps| - 1]) + RecordOf(ps[|ps| - 1])
  }

  /** `ps` holds the fields of each line of `body`. */
  predicate ParsedFrom(ps: seq<seq<string>>, body: seq<string>) {
    |ps| == |body| && forall k :: 0 <= k < |ps| ==> ps[k] == Parse(body[k])
  }

  /** Parsing each line first and then taking the records gives the same records. */
  lemma {:induction false} RecordsOfParsed(ps: seq<seq<string>>, body: seq<string>)
    requires ParsedFrom(ps, body)
    ensures Records(ps) == BodyRecords(body)
  {
    if ps != [] {
      var n := |ps| - 1;
      assert ParsedFrom(ps[..n], body[..n]);
      RecordsOfParsed(ps[..n], body[..n]);
    }
  }

  /** The import loop's step: line `i` of the file, parsed, adds its record, if any,
      to those before it. */
  lemma ParsedSnoc(ps: seq<seq<string>>, lines: seq<string>, i: nat, parts: seq<string>)
    requires 1 <= i < |lines|
    requires ParsedFrom(ps, lines[1..i])
    requires parts == Parse(lines[i])
    ensures ParsedFrom(ps + [parts], lines[1..i + 1])
    ensures Records(ps + [parts]) == Records(ps) + RecordOf(parts)
  {
    assert (ps + [parts])[..|ps|] == ps;
    forall k | 0 <= k < |ps| + 1 ensures (ps + [parts])[k] == Parse(lines[1..i + 1][k]) {
      if k < |ps| {
        assert lines[1..i + 1][k] == lines[1..i][k];
      }
    }
  }

  /** The stripped values `add_quote` stores for each record. */
  function Stripped(records: seq<(string, string)>): (r: seq<(string, string)>)
    ensures |r| == |records|
  {
    seq(|records|, k requires 0 <= k < |records| => (Text.Strip(records[k].0), Text.Strip(records[k].1)))
  }

  /** The (text, author) pairs of the rows. */
  function Pairs(rows: seq<Row>): (r: seq<(string, string)>)
    ensures |r| == |rows|
  {
    seq(|rows|, k requires 0 <= k < |rows| => (rows[k].text, rows[k].author))
  }

  /** Every exported row line reads back as its row's text and author. */
  lemma {:induction false} RowLinesRoundTrip(rows: seq<Row>)
    ensures BodyRecords(RowLines(rows)) == Pairs(rows)
    decreases |rows|
  {
    if rows != [] {
      var n := |rows| - 1;
      var last := rows[n];
      assert RowLines(rows)[..n] == RowLines(rows[..n]);
      RowLinesRoundTrip(rows[..n]);
      ExportLineRoundTrip(last.text, last.author, last.createdAt);
      var p := Parse(RowLine(last));
      assert p[0] == p[..2][0] && p[1] == p[..2][1];
      assert LineRecord(RowLine(last)) == [(last.text, last.author)];
      assert Pairs(rows) == Pairs(rows[..n]) + [(last.text, last.author)];
    }
  }

  /** Importing the lines of an export yields exactly the exported (text, author)
      pairs, in the exported order. */
  lemma ImportOfExport(rows: seq<Row>)
    ensures ImportRecords([Header] + RowLines(rows)) == Pairs(rows)
  {
    assert ([Header] + RowLines(rows))[1..] == RowLines(rows);
    RowLinesRoundTrip(rows);
  }

  /** A line with no fields adds no record; any other line adds exactly one, whose
      author is '' when the line has a single field. */
  lemma ImportStep(lines: seq<string>, line: string)
    requires lines != []
    ensures Parse(line) == [] ==> ImportRecords(lines + [line]) == ImportRecords(lines)
    ensures Parse(line) != [] ==>
      ImportRecords(lines + [line]) == ImportRecords(lines) + [(Parse(line)[0], if |Parse(line)| > 1 then Parse(line)[1] else "")]
  {
    var body := (lines + [line])[1..];
    assert body == lines[1..] + [line];
    assert body[..|body| - 1] == lines[1..];
  }

  // ---------------------------------------------------------------------
  // The lines Python reads back from the exported file.
  // ---------------------------------------------------------------------

  function FirstBreak(s: string): (k: nat)
    ensures k <= |s|
    ensures k < |s| ==> IsLineBreak(s[k])
    ensures forall m :: 0 <= m < k ==> !IsLineBreak(s[m])
  {
    if s == [] || IsLineBreak(s[0]) then 0 else 1 + FirstBreak(s[1..])
  }

  /** Iterating a file opened in text mode: "\r\n", "\r" and "\n" each end a line,
      and each is read as "\n". */
  function ReadLines(content: string): seq<string>
    decreases |content|
  {
    if content == [] then []
    else
      var k := FirstBreak(content);
      if k == |content| then [content]
      else
        var width := if content[k] == '\r' && k + 1 < |content| && content[k + 1] == '\n' then 2 else 1;
        [content[..k] + "\n"] + ReadLines(content[k + width..])
  }

  predicate NoBreak(s: string) {
    forall m :: 0 <= m < |s| ==> !IsLineBreak(s[m])
  }

  /** No field of the row holds a line break. */
  predicate SingleLine(r: Row) {
    NoBreak(r.text) && NoBreak(r.author) && NoBreak(r.createdAt)
  }

  /** A line as read: non-empty, with no line break before its last character. */
  predicate LineRead(l: string) {
    l != [] && NoBreak(l[..|l| - 1])
  }

  predicate EndsInNewline(l: string) {
    l != [] && l[|l| - 1] == '\n'
  }

  /** Every line read ends with its first line break, read as "\n", or at the end
      of the content; only the last line can lack the "\n". */
  lemma {:induction false} ReadLinesShape(content: string)
    ensures ReadLines(content) == [] <==> content == []
    ensures forall k :: 0 <= k < |ReadLines(content)| ==> LineRead(ReadLines(content)[k])
    ensures forall k :: 0 <= k < |ReadLines(content)| - 1 ==> EndsInNewline(ReadLines(content)[k])
    decreases |content|
  {
    if content != [] {
      var k := FirstBreak(content);
      if k == |content| {
        assert content[..|content| - 1] == content[..k][..|content| - 1];
      } else {
        var width := if content[k] == '\r' && k + 1 < |content| && content[k + 1] == '\n' then 2 else 1;
        var head := content[..k] + "\n";
        var rest := content[k + width..];
        ReadLinesShape(rest);
        var r, rr := ReadLines(content), ReadLines(rest);
        assert r == [head] + rr;
        assert head[..|head| - 1] == content[..k];
        assert LineRead(head) && EndsInNewline(head);
        forall j | 0 <= j < |r| ensures LineRead(r[j]) && (j < |r| - 1 ==> EndsInNewline(r[j])) {
          if j > 0 {
            assert r[j] == rr[j - 1];
          }
        }
      }
    }
  }

  lemma ReadLinesCons(line: string, rest: string)
    requires NoBreak(line)
    ensures ReadLines(line + "\n" + rest) == [line + "\n"] + ReadLines(rest)
  {
    var s := line + "\n" + rest;
    assert s[|line|] == '\n';
    assert FirstBreak(s) == |line| by {
      var k := FirstBreak(s);
      assert forall m :: 0 <= m < |line| ==> s[m] == line[m];
    }
    assert s[..|line|] == line;
    assert s[|line| + 1..] == rest;
  }

  lemma {:induction false} EscapeNoBreak(value: string)
    requires NoBreak(value)
    ensures NoBreak(Escape(value))
  {
    if value != [] {
      assert NoBreak(value[1..]) by {
        assert forall m :: 0 <= m < |value| - 1 ==> value[1..][m] == value[m + 1];
      }
      EscapeNoBreak(value[1..]);
    }
  }

  lemma RowLineShape(r: Row)
    requires SingleLine(r)
    ensures exists line :: NoBreak(line) && RowLine(r) == line + "\n"
  {
    EscapeNoBreak(r.text);
    EscapeNoBreak(r.author);
    var line := Field(Escape(r.text)) + "," + Field(Escape(r.author)) + "," + Field(r.createdAt);
    assert RowLine(r) == line + "\n";
  }

  /** When no field holds a line break, the file reads back as the header and one
      line per row. */
  lemma {:induction false} ReadExportedBody(rows: seq<Row>)
    requires forall k :: 0 <= k < |rows| ==> SingleLine(rows[k])
    ensures ReadLines(ExportBody(rows)) == RowLines(rows)
    decreases |rows|
  {
    if rows != [] {
      RowLineShape(rows[0]);
      var line :| NoBreak(line) && RowLine(rows[0]) == line + "\n";
      ReadExportedBody(rows[1..]);
      ReadLinesCons(line, ExportBody(rows[1..]));
      RowLinesCons(rows);
    }
  }

  lemma ReadExportedText(rows: seq<Row>)
    requires forall k :: 0 <= k < |rows| ==> SingleLine(rows[k])
    ensures ReadLines(ExportText(rows)) == [Header] + RowLines(rows)
  {
    ReadExportedBody(rows);
    assert NoBreak(HeaderFields) by {
      forall m | 0 <= m < |HeaderFields| ensures !IsLineBreak(HeaderFields[m]) {
        assert HeaderFields[m] in "text,author,created_at";
      }
    }
    ReadLinesCons(HeaderFields, ExportBody(rows));
  }

  /** Importing the file `export_csv` wrote yields exactly the exported (text,
      author) pairs, in order, when no field holds a line break. */
  lemma FileRoundTrip(rows: seq<Row>)
    requires forall k :: 0 <= k < |rows| ==> SingleLine(rows[k])
    ensures ImportRecords(ReadLines(ExportText(rows))) == Pairs(rows)
  {
    ReadExportedText(rows);
    ImportOfExport(rows);
  }
}
