/** CSV reading and writing (app.js:1159-1181 and the exporters'
    quoting at app.js:1074, 1117, 1236).

    `parseCSV` splits the text into lines at CRLF or LF, drops blank lines,
    and cuts every line into fields with a small state machine: a double
    quote opens or closes a quoted stretch, a doubled quote inside it stands
    for one quote, a comma outside it ends a field. It is the field syntax of
    section 2 of RFC 4180 without line breaks inside fields. */
module Csv {
  import opened Domain
  import opened Text

  // ---------------------------------------------------------------------
  // Lines

  /** `text.split(/\r\n|\n/)`, scanning left to right; `cur` is the line
      read so far. */
  function SplitFrom(s: string, cur: string): (r: seq<string>)
    ensures |r| >= 1
    decreases |s|
  {
    if s == [] then [cur]
    else if s[0] == '\n' then [cur] + SplitFrom(s[1..], "")
    else if s[0] == '\r' && |s| > 1 && s[1] == '\n' then [cur] + SplitFrom(s[2..], "")
    else SplitFrom(s[1..], cur + [s[0]])
  }

  function SplitLines(text: string): seq<string> {
    SplitFrom(text, "")
  }

  /** `.filter(l => l.trim() !== '')`. */
  function NonBlankLines(ls: seq<string>): (r: seq<string>)
    ensures |r| <= |ls|
  {
    if ls == [] then []
    else if Trim(ls[0]) == [] then NonBlankLines(ls[1..])
    else [ls[0]] + NonBlankLines(ls[1..])
  }

  /** The lines `parseCSV` keeps. */
  function CsvLines(text: string): seq<string> {
    NonBlankLines(SplitLines(text))
  }

  lemma {:induction false} NonBlankLinesKept(ls: seq<string>)
    ensures forall l :: l in NonBlankLines(ls) <==> l in ls && !IsBlank(l)
  {
    if ls != [] {
      TrimEmptyIffBlank(ls[0]);
      NonBlankLinesKept(ls[1..]);
    }
  }

  lemma {:induction false} NonBlankLinesAll(ls: seq<string>)
    requires forall i :: 0 <= i < |ls| ==> ls[i] != [] && !IsSpace(ls[i][0])
    ensures NonBlankLines(ls) == ls
  {
    if ls != [] {
      assert !IsBlank(ls[0]) by {
        assert !IsSpace(ls[0][0]);
      }
      TrimEmptyIffBlank(ls[0]);
      NonBlankLinesAll(ls[1..]);
    }
  }

  // ---------------------------------------------------------------------
  // Fields of one line

  /** The field scanner of `parseCSV` on the rest `s` of a line, with the
      fields finished so far (`row`), the field being read (`cur`) and
      whether a quoted stretch is open (`inQ`). */
  function Scan(s: string, row: seq<string>, cur: string, inQ: bool): (r: seq<string>)
    decreases |s|
  {
    if s == [] then row + [cur]
    else if inQ then
      if s[0] == '"' then
        if |s| > 1 && s[1] == '"' then Scan(s[2..], row, cur + "\"", true)
        else Scan(s[1..], row, cur, false)
      else Scan(s[1..], row, cur + [s[0]], true)
    else if s[0] == '"' then Scan(s[1..], row, cur, true)
    else if s[0] == ',' then Scan(s[1..], row + [cur], "", false)
    else Scan(s[1..], row, cur + [s[0]], false)
  }

  function ParseLineSpec(line: string): seq<string> {
    Scan(line, [], "", false)
  }

  /** The rows `parseCSV(text)` returns. */
  function ParseCsvSpec(text: string): seq<seq<string>> {
    var ls := CsvLines(text);
    seq(|ls|, i requires 0 <= i < |ls| => ParseLineSpec(ls[i]))
  }

  /** The inner `while` loop of `parseCSV` (app.js:1163-1177). */
  method ParseLine(line: string) returns (row: seq<string>)
    ensures row == ParseLineSpec(line)
  {
    var i, cur, inQ := 0, "", false;
    row := [];
    while i < |line|
      invariant 0 <= i <= |line|
      invariant Scan(line[i..], row, cur, inQ) == ParseLineSpec(line)
    {
      var ch := line[i];
      assert line[i..][0] == ch && line[i..][1..] == line[i + 1..];
      if inQ {
        if ch == '"' {
          if i + 1 < |line| && line[i + 1] == '"' {
            assert line[i..][2..] == line[i + 2..];
            cur := cur + "\"";
            i := i + 2;
            continue;
          }
          inQ := false;
          i := i + 1;
        } else {
          cur := cur + [ch];
          i := i + 1;
        }
      } else {
        if ch == '"' {
          inQ := true;
          i := i + 1;
        } else if ch == ',' {
          row := row + [cur];
          cur := "";
          i := i + 1;
        } else {
          cur := cur + [ch];
          i := i + 1;
        }
      }
    }
    row := row + [cur];
  }

  /** `parseCSV(text)` (app.js:1159-1181). */
  method ParseCsv(text: string) returns (rows: seq<seq<string>>)
    ensures rows == ParseCsvSpec(text)
  {
    var lines := CsvLines(text);
    if |lines| == 0 {
      return [];
    }
    rows := [];
    for k := 0 to |lines|
      invariant |rows| == k
      invariant forall i :: 0 <= i < k ==> rows[i] == ParseLineSpec(lines[i])
    {
      var row := ParseLine(lines[k]);
      rows := rows + [row];
    }
  }

  // ---------------------------------------------------------------------
  // Field count

  /** The commas of `s` that stand outside quoted stretches, reading the
      quotes as the scanner does. */
  function CommasOutside(s: string, inQ: bool): nat
    decreases |s|
  {
    if s == [] then 0
    else if inQ then
      if s[0] == '"' then
        if |s| > 1 && s[1] == '"' then CommasOutside(s[2..], true) else CommasOutside(s[1..], false)
      else CommasOutside(s[1..], true)
    else if s[0] == '"' then CommasOutside(s[1..], true)
    else if s[0] == ',' then 1 + CommasOutside(s[1..], false)
    else CommasOutside(s[1..], false)
  }

  lemma {:induction false} ScanLength(s: string, row: seq<string>, cur: string, inQ: bool)
    ensures |Scan(s, row, cur, inQ)| == |row| + CommasOutside(s, inQ) + 1
    decreases |s|
  {
    if s != [] {
      if inQ {
        if s[0] == '"' {
          if |s| > 1 && s[1] == '"' {
            ScanLength(s[2..], row, cur + "\"", true);
          } else {
            ScanLength(s[1..], row, cur, false);
          }
        } else {
          ScanLength(s[1..], row, cur + [s[0]], true);
        }
      } else if s[0] == '"' {
        ScanLength(s[1..], row, cur, true);
      } else if s[0] == ',' {
        ScanLength(s[1..], row + [cur], "", false);
      } else {
        ScanLength(s[1..], row, cur + [s[0]], false);
      }
    }
  }

  /** Every line `parseCSV` keeps yields one field more than it has
      unquoted commas. */
  lemma ParseCsvFieldCount(text: string, i: nat)
    requires i < |ParseCsvSpec(text)|
    ensures |CsvLines(text)| == |ParseCsvSpec(text)|
    ensures |ParseCsvSpec(text)[i]| == CommasOutside(CsvLines(text)[i], false) + 1
  {
    ScanLength(CsvLines(text)[i], [], "", false);
  }

  // ---------------------------------------------------------------------
  // Writing: `"${String(c).replace(/"/g,'""')}"`, joined by ',' and '\n'

  function DoubleQuotes(f: string): (r: string)
    ensures |r| >= |f|
  {
    if f == [] then []
    else if f[0] == '"' then "\"\"" + DoubleQuotes(f[1..])
    else [f[0]] + DoubleQuotes(f[1..])
  }

  function QuoteField(f: string): (r: string)
    ensures |r| >= 2 && r[0] == '"' && r[|r| - 1] == '"'
  {
    "\"" + DoubleQuotes(f) + "\""
  }

  /** `row.map(quote).join(',')`. */
  function QuoteRow(fields: seq<string>): (r: string)
    ensures fields != [] ==> |r| >= 2 && r[0] == '"' && r[|r| - 1] == '"'
  {
    if fields == [] then ""
    else if |fields| == 1 then QuoteField(fields[0])
    else QuoteField(fields[0]) + "," + QuoteRow(fields[1..])
  }

  /** `lines.join('\n')`. */
  function JoinLines(lines: seq<string>): string {
    if lines == [] then ""
    else if |lines| == 1 then lines[0]
    else lines[0] + "\n" + JoinLines(lines[1..])
  }

  /** The text of an exported CSV file. */
  function CsvText(rows: seq<seq<string>>): string {
    JoinLines(seq(|rows|, i requires 0 <= i < |rows| => QuoteRow(rows[i])))
  }

  // ---------------------------------------------------------------------
  // Round trip

  /** Inside a quoted stretch, a field written by `DoubleQuotes` and closed
      by a quote is read back whole. */
  lemma {:induction false} ScanQuoted(f: string, rest: string, row: seq<string>, cur: string)
    requires rest == [] || rest[0] != '"'
    ensures Scan(DoubleQuotes(f) + "\"" + rest, row, cur, true) == Scan(rest, row, cur + f, false)
    decreases |f|
  {
    var s := DoubleQuotes(f) + "\"" + rest;
    if f == [] {
      assert DoubleQuotes(f) == [];
      assert s == "\"" + rest && s[1..] == rest;
      assert cur + f == cur;
    } else if f[0] == '"' {
      assert s == "\"\"" + (DoubleQuotes(f[1..]) + "\"" + rest);
      assert s[2..] == DoubleQuotes(f[1..]) + "\"" + rest;
      ScanQuoted(f[1..], rest, row, cur + "\"");
      assert cur + "\"" + f[1..] == cur + f;
    } else {
      assert s == [f[0]] + (DoubleQuotes(f[1..]) + "\"" + rest);
      assert s[1..] == DoubleQuotes(f[1..]) + "\"" + rest;
      ScanQuoted(f[1..], rest, row, cur + [f[0]]);
      assert cur + [f[0]] + f[1..] == cur + f;
    }
  }

  lemma {:induction false} ScanQuotedRow(fields: seq<string>, row: seq<string>)
    requires fields != []
    ensures Scan(QuoteRow(fields), row, "", false) == row + fields
    decreases |fields|
  {
    var f := fields[0];
    if |fields| == 1 {
      ScanQuotedLast(f, row);
      assert fields == [f];
    } else {
      ScanQuotedStep(f, QuoteRow(fields[1..]), row);
      ScanQuotedRow(fields[1..], row + [f]);
      assert row + [f] + fields[1..] == row + fields;
    }
  }

  /** The last quoted field of a line ends the row. */
  lemma ScanQuotedLast(f: string, row: seq<string>)
    ensures Scan(QuoteField(f), row, "", false) == row + [f]
  {
    var s := QuoteField(f);
    assert s[1..] == DoubleQuotes(f) + "\"" + [];
    ScanQuoted(f, [], row, "");
    assert "" + f == f;
  }

  /** A quoted field and its comma are read as one finished field. */
  lemma ScanQuotedStep(f: string, tail: string, row: seq<string>)
    ensures Scan(QuoteField(f) + "," + tail, row, "", false) == Scan(tail, row + [f], "", false)
  {
    var s := QuoteField(f) + "," + tail;
    assert s[1..] == DoubleQuotes(f) + "\"" + ("," + tail);
    ScanQuoted(f, "," + tail, row, "");
    assert ("," + tail)[1..] == tail && "" + f == f;
  }

  /** One exported line is read back as the fields it was written from. */
  lemma ParseQuotedRow(fields: seq<string>)
    requires fields != []
    ensures ParseLineSpec(QuoteRow(fields)) == fields
  {
    ScanQuotedRow(fields, []);
  }

  predicate NoLineBreak(s: string) {
    forall k :: 0 <= k < |s| ==> s[k] != '\n'
  }

  /** A non-empty line without LF that does not end in CR is cut off whole. */
  lemma {:induction false} SplitOneLine(line: string, rest: string, cur: string)
    requires NoLineBreak(line)
    requires line != [] && line[|line| - 1] != '\r'
    ensures SplitFrom(line + "\n" + rest, cur) == [cur + line] + SplitFrom(rest, "")
    decreases |line|
  {
    var s := line + "\n" + rest;
    assert s[0] == line[0] && s[1..] == line[1..] + "\n" + rest;
    if |line| == 1 {
      assert s[1..] == "\n" + rest && s[2..] == rest;
      assert cur + line == cur + [line[0]];
    } else {
      assert s[1] == line[1];
      assert cur + line == (cur + [line[0]]) + line[1..];
      SplitOneLine(line[1..], rest, cur + [line[0]]);
    }
  }

  lemma {:induction false} SplitLastLine(line: string, cur: string)
    requires NoLineBreak(line)
    ensures SplitFrom(line, cur) == [cur + line]
    decreases |line|
  {
    if line == [] {
      assert cur + line == cur;
    } else {
      if line[0] == '\r' && |line| > 1 {
        assert line[1] != '\n';
      }
      assert cur + line == (cur + [line[0]]) + line[1..];
      SplitLastLine(line[1..], cur + [line[0]]);
    }
  }

  lemma {:induction false} SplitJoined(lines: seq<string>)
    requires lines != []
    requires forall i :: 0 <= i < |lines| ==> NoLineBreak(lines[i])
    requires forall i :: 0 <= i < |lines| ==> lines[i] != [] && lines[i][|lines[i]| - 1] != '\r'
    ensures SplitLines(JoinLines(lines)) == lines
    decreases |lines|
  {
    if |lines| == 1 {
      SplitLastLine(lines[0], "");
      assert "" + lines[0] == lines[0];
    } else {
      SplitOneLine(lines[0], JoinLines(lines[1..]), "");
      assert "" + lines[0] == lines[0];
      SplitJoined(lines[1..]);
      assert lines == [lines[0]] + lines[1..];
    }
  }

  predicate QuotableRow(row: seq<string>) {
    row != [] && forall j :: 0 <= j < |row| ==> NoLineBreak(row[j])
  }

  lemma {:induction false} QuoteFieldNoLineBreak(f: string)
    requires NoLineBreak(f)
    ensures NoLineBreak(DoubleQuotes(f))
    decreases |f|
  {
    if f != [] {
      QuoteFieldNoLineBreak(f[1..]);
    }
  }

  lemma {:induction false} QuoteRowNoLineBreak(row: seq<string>)
    requires forall j :: 0 <= j < |row| ==> NoLineBreak(row[j])
    ensures NoLineBreak(QuoteRow(row))
    decreases |row|
  {
    if row != [] {
      QuoteFieldNoLineBreak(row[0]);
      if |row| > 1 {
        QuoteRowNoLineBreak(row[1..]);
      }
    }
  }

  /** Writing rows with the exporters' quoting and reading the text back with
      `parseCSV` gives the rows again, as long as no field holds a line feed
      and no row is empty. */
  /** A quotable header over quotable rows makes a quotable table. */
  lemma QuotableTable(header: seq<string>, rows: seq<seq<string>>)
    requires QuotableRow(header)
    requires forall i :: 0 <= i < |rows| ==> QuotableRow(rows[i])
    ensures forall k :: 0 <= k < |rows| + 1 ==> QuotableRow(([header] + rows)[k])
  {
    forall k | 0 <= k < |rows| + 1 ensures QuotableRow(([header] + rows)[k]) {
      if k > 0 {
        assert ([header] + rows)[k] == rows[k - 1];
      }
    }
  }

  lemma CsvRoundTrip(rows: seq<seq<string>>)
    requires forall i :: 0 <= i < |rows| ==> QuotableRow(rows[i])
    ensures ParseCsvSpec(CsvText(rows)) == rows
  {
    var lines := seq(|rows|, i requires 0 <= i < |rows| => QuoteRow(rows[i]));
    if rows == [] {
      assert SplitLines("") == [""];
      assert Trim("") == [];
      assert CsvLines("") == [];
    } else {
      forall i | 0 <= i < |lines| ensures NoLineBreak(lines[i]) {
        QuoteRowNoLineBreak(rows[i]);
      }
      SplitJoined(lines);
      NonBlankLinesAll(lines);
      assert CsvLines(CsvText(rows)) == lines;
      forall i | 0 <= i < |rows| ensures ParseLineSpec(lines[i]) == rows[i] {
        ParseQuotedRow(rows[i]);
      }
    }
  }

  lemma {:induction false} DoubleQuotesNoQuote(f: string)
    requires forall k :: 0 <= k < |f| ==> f[k] != '"'
    ensures DoubleQuotes(f) == f
    decreases |f|
  {
    if f != [] {
      DoubleQuotesNoQuote(f[1..]);
    }
  }

  lemma LineFeedText()
    ensures CsvText([["a\nb"]]) == "\"a\nb\""
  {
    DoubleQuotesNoQuote("a\nb");
    assert QuoteRow(["a\nb"]) == "\"a\nb\"";
    assert CsvText([["a\nb"]]) == JoinLines(["\"a\nb\""]);
  }

  lemma LineFeedLines()
    ensures CsvLines("\"a\nb\"") == ["\"a", "b\""]
  {
    LineFeedSplit();
    var ls := ["\"a", "b\""];
    assert !IsSpace('"') && !IsSpace('b');
    assert ls[0][0] == '"' && ls[1][0] == 'b';
    NonBlankLinesAll(ls);
  }

  lemma LineFeedSplit()
    ensures SplitLines("\"a\nb\"") == ["\"a", "b\""]
  {
    assert "\"a\nb\"" == "\"a" + "\n" + "b\"";
    SplitOneLine("\"a", "b\"", "");
    SplitLastLine("b\"", "");
    assert "" + "\"a" == "\"a" && "" + "b\"" == "b\"";
  }

  lemma LineFeedFields()
    ensures ParseLineSpec("\"a") == ["a"]
    ensures ParseLineSpec("b\"") == ["b"]
  {
    assert "\"a"[1..] == "a" && "a"[1..] == [];
    assert Scan("\"a", [], "", false) == Scan("a", [], "", true);
    assert Scan("a", [], "", true) == Scan([], [], "" + "a", true);
    assert "" + "a" == "a";
    assert "b\""[1..] == "\"" && "\""[1..] == [];
    assert Scan("b\"", [], "", false) == Scan("\"", [], "" + "b", false);
    assert "" + "b" == "b";
    assert Scan("\"", [], "b", false) == Scan([], [], "b", true);
  }

  /** A line feed inside a quoted field is not supported: the field is read
      back as two one-field rows. */
  lemma LineFeedInFieldSplitsRow()
    ensures ParseCsvSpec(CsvText([["a\nb"]])) == [["a"], ["b"]]
  {
    LineFeedText();
    LineFeedRows();
  }

  lemma LineFeedRows()
    ensures ParseCsvSpec("\"a\nb\"") == [["a"], ["b"]]
  {
    LineFeedLines();
    LineFeedFields();
    TwoRows("\"a\nb\"", ["\"a", "b\""]);
  }

  lemma TwoRows(text: string, ls: seq<string>)
    requires CsvLines(text) == ls && |ls| == 2
    requires ParseLineSpec(ls[0]) == ["a"] && ParseLineSpec(ls[1]) == ["b"]
    ensures ParseCsvSpec(text) == [["a"], ["b"]]
  {
  }
}
