/**
 The application's own CSV handling: `parse_csv_line`, a character by
 character state machine over one line, and the line that `export_csv`
 writes for each quote.
 */
module Csv {

  predicate IsLineBreak(c: char) {
    c == '\r' || c == '\n'
  }

  // ---------------------------------------------------------------------
  // The parser as a function of its state: the index i, the accumulated
  // fields, the field being read and whether the reader is inside quotes.
  // ---------------------------------------------------------------------

  /** End of input or an unquoted line break: the last field is kept only if non-empty. */
  function Finish(parts: seq<string>, cur: string): seq<string> {
    if cur != "" then parts + [cur] else parts
  }

  function ParseFrom(line: string, i: nat, parts: seq<string>, cur: string, inQuotes: bool): seq<string>
    requires i <= |line|
    decreases |line| - i
  {
    if i == |line| then Finish(parts, cur)
    else if line[i] == '"' then
      if inQuotes && i + 1 < |line| && line[i + 1] == '"' then
        ParseFrom(line, i + 2, parts, cur + ['"'], inQuotes)
      else
        ParseFrom(line, i + 1, parts, cur, !inQuotes)
    else if line[i] == ',' && !inQuotes then
      ParseFrom(line, i + 1, parts + [cur], "", inQuotes)
    else if IsLineBreak(line[i]) && !inQuotes then
      Finish(parts, cur)
    else
      ParseFrom(line, i + 1, parts, cur + [line[i]], inQuotes)
  }

  /** The fields `parse_csv_line(line)` returns. */
  function Parse(line: string): seq<string> {
    ParseFrom(line, 0, [], "", false)
  }

  /** A line yields no more fields than it has characters, and a line without a
      comma at most one field. */
  lemma ParseFieldCount(line: string)
    ensures |Parse(line)| <= |line|
    ensures ',' !in line ==> |Parse(line)| <= 1
  {
    FieldCount(line, 0, [], "", false);
  }

  /** Every field beyond `parts` ends at an unquoted comma or holds a character of
      its own, and with no comma left the parse adds at most the current field. */
  lemma {:induction false} FieldCount(line: string, i: nat, parts: seq<string>, cur: string, inQuotes: bool)
    requires i <= |line|
    ensures |ParseFrom(line, i, parts, cur, inQuotes)| <= |parts| + (|line| - i) + (if cur == "" then 0 else 1)
    ensures (forall m :: i <= m < |line| ==> line[m] != ',') ==> |ParseFrom(line, i, parts, cur, inQuotes)| <= |parts| + 1
    decreases |line| - i
  {
    if i == |line| {
    } else if line[i] == '"' {
      if inQuotes && i + 1 < |line| && line[i + 1] == '"' {
        FieldCount(line, i + 2, parts, cur + ['"'], inQuotes);
      } else {
        FieldCount(line, i + 1, parts, cur, !inQuotes);
      }
    } else if line[i] == ',' && !inQuotes {
      FieldCount(line, i + 1, parts + [cur], "", inQuotes);
    } else if IsLineBreak(line[i]) && !inQuotes {
    } else {
      FieldCount(line, i + 1, parts, cur + [line[i]], inQuotes);
    }
  }

  /** `parse_csv_line`: the loop over the characters of one line. */
  method ParseCsvLine(line: string) returns (parts: seq<string>)
    ensures parts == Parse(line)
  {
    parts := [];
    var cur := "";
    var inQuotes := false;
    var i := 0;
    while i < |line|
      invariant i <= |line|
      invariant ParseFrom(line, i, parts, cur, inQuotes) == Parse(line)
      decreases |line| - i
    {
      var ch := line[i];
      if ch == '"' {
        if inQuotes && i + 1 < |line| && line[i + 1] == '"' {
          cur := cur + ['"'];
          i := i + 2;
          continue;
        }
        inQuotes := !inQuotes;
        i := i + 1;
        continue;
      }
      if ch == ',' && !inQuotes {
        parts := parts + [cur];
        cur := "";
        i := i + 1;
        continue;
      }
      if IsLineBreak(ch) && !inQuotes {
        break;
      }
      cur := cur + [ch];
      i := i + 1;
    }
    if cur != "" {
      parts := parts + [cur];
    }
  }

  /** The transition rules, one character (or one "" pair) at a time. */
  lemma ParseSteps(line: string, i: nat, parts: seq<string>, cur: string, inQuotes: bool)
    requires i < |line|
    ensures line[i] == '"' && inQuotes && i + 1 < |line| && line[i + 1] == '"' ==>
      ParseFrom(line, i, parts, cur, inQuotes) == ParseFrom(line, i + 2, parts, cur + ['"'], true)
    ensures line[i] == '"' && !(inQuotes && i + 1 < |line| && line[i + 1] == '"') ==>
      ParseFrom(line, i, parts, cur, inQuotes) == ParseFrom(line, i + 1, parts, cur, !inQuotes)
    ensures line[i] == ',' ==>
      ParseFrom(line, i, parts, cur, inQuotes) ==
        if inQuotes then ParseFrom(line, i + 1, parts, cur + [','], true)
        else ParseFrom(line, i + 1, parts + [cur], "", false)
    ensures IsLineBreak(line[i]) ==>
      ParseFrom(line, i, parts, cur, inQuotes) ==
        if inQuotes then ParseFrom(line, i + 1, parts, cur + [line[i]], true)
        else Finish(parts, cur)
  {
  }

  /** An empty line, or one that starts with a line break, has no fields. */
  lemma EmptyLines(line: string)
    requires line == [] || IsLineBreak(line[0])
    ensures Parse(line) == []
  {
  }

  /** Fields already completed are never taken back. */
  lemma {:induction false} PartsPrefix(line: string, i: nat, parts: seq<string>, cur: string, inQuotes: bool)
    requires i <= |line|
    ensures parts <= ParseFrom(line, i, parts, cur, inQuotes)
    decreases |line| - i
  {
    if i == |line| {
    } else if line[i] == '"' {
      if inQuotes && i + 1 < |line| && line[i + 1] == '"' {
        PartsPrefix(line, i + 2, parts, cur + ['"'], inQuotes);
      } else {
        PartsPrefix(line, i + 1, parts, cur, !inQuotes);
      }
    } else if line[i] == ',' && !inQuotes {
      PartsPrefix(line, i + 1, parts + [cur], "", inQuotes);
    } else if IsLineBreak(line[i]) && !inQuotes {
    } else {
      PartsPrefix(line, i + 1, parts, cur + [line[i]], inQuotes);
    }
  }

  // ---------------------------------------------------------------------
  // Lines without quotes: a plain split at commas.
  // ---------------------------------------------------------------------

  function IndexOf(s: string, c: char): (k: nat)
    requires c in s
    ensures k < |s| && s[k] == c && c !in s[..k]
  {
    if s[0] == c then 0
    else
      var k := 1 + IndexOf(s[1..], c);
      assert s[..k] == [s[0]] + s[1..][..k - 1];
      k
  }

  /** `s.split(',')`: the pieces between commas; never empty. */
  function SplitAtCommas(s: string): (r: seq<string>)
    ensures |r| >= 1
    decreases |s|
  {
    if ',' in s then
      var k := IndexOf(s, ',');
      [s[..k]] + SplitAtCommas(s[k + 1..])
    else [s]
  }

  /** Drops the last field when it is empty. */
  function DropTrailingEmpty(fields: seq<string>): seq<string> {
    if fields != [] && fields[|fields| - 1] == "" then fields[..|fields| - 1] else fields
  }

  function Prepend(prefix: string, fields: seq<string>): seq<string>
    requires |fields| >= 1
  {
    [prefix + fields[0]] + fields[1..]
  }

  lemma PrependEmpty(fields: seq<string>)
    requires |fields| >= 1
    ensures Prepend("", fields) == fields
  {
    assert "" + fields[0] == fields[0];
  }

  lemma SplitComma(t: string)
    ensures SplitAtCommas([','] + t) == [""] + SplitAtCommas(t)
  {
    var s := [','] + t;
    assert IndexOf(s, ',') == 0;
    assert s[1..] == t;
  }

  lemma SplitOther(c: char, t: string)
    requires c != ','
    ensures SplitAtCommas([c] + t) == Prepend([c], SplitAtCommas(t))
  {
    var s := [c] + t;
    assert s[1..] == t;
    if ',' in t {
      var k := IndexOf(t, ',');
      assert ',' in s by { assert s[k + 1] == ','; }
      assert IndexOf(s, ',') == k + 1;
      assert s[..k + 1] == [c] + t[..k];
      assert s[k + 2..] == t[k + 1..];
    } else {
      assert ',' !in s;
    }
  }

  /** An unquoted comma closes the current field. */
  lemma CommaStep(line: string, i: nat, parts: seq<string>, cur: string)
    requires i < |line| && line[i] == ','
    ensures ParseFrom(line, i, parts, cur, false) == ParseFrom(line, i + 1, parts + [cur], "", false)
  {
  }

  /** An ordinary character outside quotes extends the current field. */
  lemma PlainStep(line: string, i: nat, parts: seq<string>, cur: string)
    requires i < |line| && line[i] != '"' && line[i] != ',' && !IsLineBreak(line[i])
    ensures ParseFrom(line, i, parts, cur, false) == ParseFrom(line, i + 1, parts, cur + [line[i]], false)
  {
  }

  lemma PrependAfterComma(parts: seq<string>, cur: string, fields: seq<string>)
    requires |fields| >= 1
    ensures parts + [cur] + Prepend("", fields) == parts + Prepend(cur, [""] + fields)
  {
    PrependEmpty(fields);
    assert ([""] + fields)[0] == "" && ([""] + fields)[1..] == fields;
    assert cur + "" == cur;
  }

  lemma PrependChar(cur: string, c: char, fields: seq<string>)
    requires |fields| >= 1
    ensures Prepend(cur + [c], fields) == Prepend(cur, Prepend([c], fields))
  {
    assert cur + [c] + fields[0] == cur + ([c] + fields[0]);
  }

  lemma {:induction false} PlainFrom(s: string, i: nat, k: nat, parts: seq<string>, cur: string)
    requires i <= k <= |s|
    requires forall m :: i <= m < k ==> s[m] != '"' && !IsLineBreak(s[m])
    requires k == |s| || IsLineBreak(s[k])
    ensures ParseFrom(s, i, parts, cur, false) == DropTrailingEmpty(parts + Prepend(cur, SplitAtCommas(s[i..k])))
    decreases k - i
  {
    if i == k {
      assert s[i..k] == [];
      assert SplitAtCommas([]) == [[]];
      assert cur + [] == cur;
    } else {
      var rest := s[i + 1..k];
      assert s[i..k] == [s[i]] + rest;
      var x := SplitAtCommas(rest);
      if s[i] == ',' {
        CommaStep(s, i, parts, cur);
        PlainFrom(s, i + 1, k, parts + [cur], "");
        SplitComma(rest);
        PrependAfterComma(parts, cur, x);
      } else {
        PlainStep(s, i, parts, cur);
        PlainFrom(s, i + 1, k, parts, cur + [s[i]]);
        SplitOther(s[i], rest);
        PrependChar(cur, s[i], x);
      }
    }
  }

  /** A line without quotes parses to its comma-separated pieces up to the first
      line break, the last piece dropped when it is empty. */
  lemma PlainLine(line: string, k: nat)
    requires k <= |line|
    requires forall m :: 0 <= m < k ==> line[m] != '"' && !IsLineBreak(line[m])
    requires k == |line| || IsLineBreak(line[k])
    ensures Parse(line) == DropTrailingEmpty(SplitAtCommas(line[..k]))
  {
    PlainFrom(line, 0, k, [], "");
    var x := SplitAtCommas(line[0..k]);
    assert line[0..k] == line[..k];
    PrependEmpty(x);
    assert [] + x == x;
  }

  // ---------------------------------------------------------------------
  // Quoted fields: what `export_csv` writes and the parser reads back.
  // ---------------------------------------------------------------------

  /** `value.replace('"', '""')`. */
  function Escape(value: string): (r: string)
    ensures |r| >= |value|
  {
    if value == [] then []
    else (if value[0] == '"' then "\"\"" else [value[0]]) + Escape(value[1..])
  }

  /** Escaping adds exactly one character per quote of the value. */
  lemma {:induction false} EscapeLength(value: string)
    ensures |Escape(value)| == |value| + multiset(value)['"']
  {
    if value != [] {
      assert value == [value[0]] + value[1..];
      EscapeLength(value[1..]);
    }
  }

  /** Without quotes there is nothing to escape. */
  lemma {:induction false} EscapeNoQuote(value: string)
    requires '"' !in value
    ensures Escape(value) == value
  {
    if value != [] {
      assert '"' !in value[1..] by { assert forall m :: 0 <= m < |value| - 1 ==> value[1..][m] == value[m + 1]; }
      EscapeNoQuote(value[1..]);
      assert value == [value[0]] + value[1..];
    }
  }

  /** A field between double quotes. */
  function Field(body: string): string {
    "\"" + body + "\""
  }

  /** The line `export_csv` writes for one quote. */
  function ExportLine(text: string, author: string, createdAt: string): string {
    Field(Escape(text)) + "," + Field(Escape(author)) + "," + Field(createdAt) + "\n"
  }

  /** Inside quotes, the escaped form of `value` and its closing quote read back as `value`. */
  lemma {:induction false} EscapedBody(line: string, j: nat, parts: seq<string>, cur: string, value: string)
    requires j + |Escape(value)| < |line|
    requires line[j..j + |Escape(value)|] == Escape(value)
    requires line[j + |Escape(value)|] == '"'
    requires j + |Escape(value)| + 1 == |line| || line[j + |Escape(value)| + 1] != '"'
    ensures ParseFrom(line, j, parts, cur, true) == ParseFrom(line, j + |Escape(value)| + 1, parts, cur + value, false)
    decreases |value|
  {
    var e := Escape(value);
    if value == [] {
      assert cur + value == cur;
    } else {
      var rest := Escape(value[1..]);
      if value[0] == '"' {
        assert e == "\"\"" + rest;
        assert line[j] == e[0] && line[j + 1] == e[1];
        assert line[j + 2..j + 2 + |rest|] == e[2..];
        EscapedBody(line, j + 2, parts, cur + ['"'], value[1..]);
      } else {
        assert e == [value[0]] + rest;
        assert line[j] == e[0];
        assert line[j + 1..j + 1 + |rest|] == e[1..];
        EscapedBody(line, j + 1, parts, cur + [value[0]], value[1..]);
      }
      assert cur + [value[0]] + value[1..] == cur + value;
    }
  }

  /** Outside quotes, a quoted escaped field reads back as the original value. */
  lemma QuotedField(line: string, i: nat, parts: seq<string>, cur: string, value: string)
    requires i + |Field(Escape(value))| <= |line|
    requires line[i..i + |Field(Escape(value))|] == Field(Escape(value))
    requires i + |Field(Escape(value))| == |line| || line[i + |Field(Escape(value))|] != '"'
    ensures ParseFrom(line, i, parts, cur, false) == ParseFrom(line, i + |Field(Escape(value))|, parts, cur + value, false)
  {
    var e := Escape(value);
    var f := Field(e);
    assert forall m :: 0 <= m < |f| ==> line[i + m] == line[i..i + |f|][m] == f[m];
    assert line[i] == f[0] == '"';
    assert forall m :: 0 <= m < |e| ==> line[i + 1..i + 1 + |e|][m] == line[i + 1 + m] == f[1 + m] == e[m];
    assert line[i + 1..i + 1 + |e|] == e;
    assert line[i + 1 + |e|] == f[1 + |e|] == '"';
    EscapedBody(line, i + 1, parts, cur, value);
  }

  /** A quoted escaped field followed by a comma ends one field holding the value. */
  lemma FieldThenComma(line: string, i: nat, parts: seq<string>, value: string, j: nat, after: seq<string>)
    requires j == i + |Field(Escape(value))| + 1 <= |line|
    requires line[i..i + |Field(Escape(value))|] == Field(Escape(value))
    requires line[i + |Field(Escape(value))|] == ','
    requires after == parts + [value]
    ensures ParseFrom(line, i, parts, "", false) == ParseFrom(line, j, after, "", false)
  {
    QuotedField(line, i, parts, "", value);
    CommaStep(line, i + |Field(Escape(value))|, parts, "" + value);
    assert "" + value == value;
  }

  lemma SliceOfPrefix(line: string, head: string, i: nat, j: nat)
    requires head <= line && i <= j <= |head|
    ensures line[i..j] == head[i..j]
  {
    assert forall m :: i <= m < j ==> line[m] == head[m];
  }

  /** Where the pieces of a two-field head sit in a line that starts with it. */
  lemma HeadShape(line: string, f1: string, f2: string)
    requires f1 + "," + f2 + "," <= line
    ensures line[0..|f1|] == f1 && line[|f1|] == ','
    ensures line[|f1| + 1..|f1| + 1 + |f2|] == f2 && line[|f1| + 1 + |f2|] == ','
  {
    var head := f1 + "," + f2 + ",";
    var a, b := |f1|, |f1| + 1 + |f2|;
    SliceOfPrefix(line, head, 0, a);
    assert head[0..a] == f1;
    assert line[a] == head[a];
    SliceOfPrefix(line, head, a + 1, b);
    assert head[a + 1..b] == f2;
    assert line[b] == head[b];
  }

  /** The two escaped leading fields of an exported line. */
  lemma LeadingFields(line: string, text: string, author: string)
    requires Field(Escape(text)) + "," + Field(Escape(author)) + "," <= line
    ensures Parse(line) == ParseFrom(line, |Field(Escape(text))| + 1 + |Field(Escape(author))| + 1, [text, author], "", false)
  {
    var f1, f2 := Field(Escape(text)), Field(Escape(author));
    HeadShape(line, f1, f2);
    FieldThenComma(line, 0, [], text, |f1| + 1, [text]);
    FieldThenComma(line, |f1| + 1, [text], author, |f1| + 1 + |f2| + 1, [text, author]);
  }

  /** Reading back an exported line gives the text and the author as its first two
      fields; with a date free of quotes it gives exactly text, author and date
      (the date dropped when empty). */
  lemma ExportLineRoundTrip(text: string, author: string, createdAt: string)
    ensures |Parse(ExportLine(text, author, createdAt))| >= 2
    ensures Parse(ExportLine(text, author, createdAt))[..2] == [text, author]
    ensures '"' !in createdAt ==>
      Parse(ExportLine(text, author, createdAt)) == [text, author] + (if createdAt == "" then [] else [createdAt])
  {
    var f1, f2, f3 := Field(Escape(text)), Field(Escape(author)), Field(createdAt);
    var line := ExportLine(text, author, createdAt);
    var c := |f1| + 1 + |f2| + 1;
    assert line == (f1 + "," + f2 + ",") + (f3 + "\n");
    LeadingFields(line, text, author);
    PartsPrefix(line, c, [text, author], "", false);
    if '"' !in createdAt {
      EscapeNoQuote(createdAt);
      assert line[c..c + |f3|] == f3 && line[c + |f3|] == '\n';
      QuotedField(line, c, [text, author], "", createdAt);
      assert "" + createdAt == createdAt;
    }
  }
}
