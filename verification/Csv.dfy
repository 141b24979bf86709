/** The CSV preview parser and the printing it inverts (section 2 of RFC 4180). */
module Csv {
  type Row = seq<string>

  /** The parser's variables. */
  datatype Progress = Progress(rows: seq<Row>, row: Row, cell: string, inQuotes: bool)
  {
    function EndCell(): Progress { Progress(rows, row + [cell], "", inQuotes) }

    function EndRow(): Progress { Progress(rows + [row + [cell]], [], "", inQuotes) }

    function Put(s: string): Progress { Progress(rows, row, cell + s, inQuotes) }

    function Quoting(on: bool): Progress { Progress(rows, row, cell, on) }

    /** The last row counts only if something of it was seen. */
    function Finish(): seq<Row> {
      if cell != "" || |row| > 0 then rows + [row + [cell]] else rows
    }
  }

  const START := Progress([], [], "", false)

  function Run(t: string, p: Progress): Progress
    decreases |t|
  {
    if t == "" then p
    else if p.inQuotes then
      if t[0] == '"' && |t| > 1 && t[1] == '"' then Run(t[2..], p.Put("\""))
      else if t[0] == '"' then Run(t[1..], p.Quoting(false))
      else Run(t[1..], p.Put([t[0]]))
    else
      match t[0]
      case '"' => Run(t[1..], p.Quoting(true))
      case ',' => Run(t[1..], p.EndCell())
      case '\n' => Run(t[1..], p.EndRow())
      case '\r' => Run(t[1..], p)
      case c => Run(t[1..], p.Put([c]))
  }

  function Parse(t: string): seq<Row> {
    Run(t, START).Finish()
  }

  method ParseCsv(text: string) returns (rows: seq<Row>)
    ensures rows == Parse(text)
  {
    rows := [];
    var row: Row := [];
    var cell := "";
    var inQuotes := false;
    var i := 0;
    assert text[0..] == text;
    while i < |text|
      invariant i <= |text|
      invariant Run(text[i..], Progress(rows, row, cell, inQuotes)) == Run(text, START)
    {
      var ch := text[i];
      if inQuotes {
        if ch == '"' && i + 1 < |text| && text[i + 1] == '"' {
          cell := cell + "\"";
          i := i + 1;
          assert text[i - 1..][2..] == text[i + 1..];
        } else if ch == '"' {
          inQuotes := false;
        } else {
          cell := cell + [ch];
        }
      } else {
        if ch == '"' {
          inQuotes := true;
        } else if ch == ',' {
          row := row + [cell];
          cell := "";
        } else if ch == '\n' {
          row := row + [cell];
          rows := rows + [row];
          row := [];
          cell := "";
        } else if ch != '\r' {
          cell := cell + [ch];
        }
      }
      i := i + 1;
    }
    if cell != "" || |row| > 0 {
      row := row + [cell];
      rows := rows + [row];
    }
  }

  // Printing.

  /** Every quote doubled. */
  function Doubled(s: string): string {
    if s == "" then "" else (if s[0] == '"' then "\"\"" else [s[0]]) + Doubled(s[1..])
  }

  /** A cell that may stand without quotes. */
  predicate Plain(s: string) {
    '"' !in s && ',' !in s && '\n' !in s && '\r' !in s
  }

  function PrintCell(s: string, quoted: bool): string {
    if quoted then "\"" + Doubled(s) + "\"" else s
  }

  function PrintCells(row: Row, quoted: seq<bool>): string
    requires |row| == |quoted|
  {
    if row == [] then ""
    else PrintCell(row[0], quoted[0]) + (if |row| > 1 then "," + PrintCells(row[1..], quoted[1..]) else "")
  }

  /** How a table is printed: which cells are quoted, and which rows end in CRLF. */
  datatype Style = Style(quoted: seq<seq<bool>>, crlf: seq<bool>)
  {
    predicate Fits(rows: seq<Row>) {
      && |quoted| == |crlf| == |rows|
      && forall i :: 0 <= i < |rows| ==> FitsRow(rows[i], quoted[i])
    }

    function Tail(): Style
      requires |quoted| > 0 && |crlf| > 0
    {
      Style(quoted[1..], crlf[1..])
    }
  }

  /** Quotes are optional only on plain cells. */
  predicate FitsRow(row: Row, quoted: seq<bool>) {
    |quoted| == |row| > 0 && forall j :: 0 <= j < |row| ==> quoted[j] || Plain(row[j])
  }

  function Eol(crlf: bool): string { if crlf then "\r\n" else "\n" }

  function Print(rows: seq<Row>, style: Style): string
    requires style.Fits(rows)
  {
    if rows == [] then ""
    else PrintCells(rows[0], style.quoted[0]) + Eol(style.crlf[0]) + Print(rows[1..], style.Tail())
  }

  /** The same without the line break after the last row. */
  function PrintOpen(rows: seq<Row>, style: Style): string
    requires style.Fits(rows) && rows != []
  {
    PrintCells(rows[0], style.quoted[0]) +
    (if |rows| > 1 then Eol(style.crlf[0]) + PrintOpen(rows[1..], style.Tail()) else "")
  }

  // The round trip.

  lemma {:induction false} RunPlain(s: string, rest: string, p: Progress)
    requires Plain(s) && !p.inQuotes
    ensures Run(s + rest, p) == Run(rest, p.Put(s))
    decreases |s|
  {
    if s == "" {
      assert s + rest == rest && p.cell + s == p.cell;
    } else {
      assert (s + rest)[1..] == s[1..] + rest;
      RunPlain(s[1..], rest, p.Put([s[0]]));
      assert p.cell + [s[0]] + s[1..] == p.cell + s;
    }
  }

  /** Inside quotes the doubled text comes out single, up to the closing quote. */
  lemma {:induction false} RunDoubled(s: string, rest: string, p: Progress)
    requires p.inQuotes && (rest == "" || rest[0] != '"')
    ensures Run(Doubled(s) + "\"" + rest, p) == Run(rest, p.Put(s).Quoting(false))
    decreases |s|
  {
    var t := Doubled(s) + "\"" + rest;
    if s == "" {
      assert t[1..] == rest && p.cell + s == p.cell;
    } else {
      var u := Doubled(s[1..]) + "\"" + rest;
      RunDoubled(s[1..], rest, p.Put([s[0]]));
      assert p.cell + [s[0]] + s[1..] == p.cell + s;
      if s[0] == '"' {
        assert t[2..] == u && t[0] == t[1] == '"';
      } else {
        assert t[1..] == u && t[0] == s[0];
      }
    }
  }

  lemma RunCell(s: string, quoted: bool, rest: string, p: Progress)
    requires !p.inQuotes && (quoted || Plain(s)) && (rest == "" || rest[0] != '"')
    ensures Run(PrintCell(s, quoted) + rest, p) == Run(rest, p.Put(s))
  {
    if quoted {
      var t := PrintCell(s, quoted) + rest;
      assert t[0] == '"' && t[1..] == Doubled(s) + "\"" + rest;
      RunDoubled(s, rest, p.Quoting(true));
    } else {
      RunPlain(s, rest, p);
    }
  }

  lemma RunEnd(p: Progress)
    ensures Run("", p) == p
  {
  }

  lemma RunComma(rest: string, p: Progress)
    requires !p.inQuotes
    ensures Run("," + rest, p) == Run(rest, p.EndCell())
  {
    assert ("," + rest)[1..] == rest;
  }

  lemma RunEol(crlf: bool, rest: string, p: Progress)
    requires !p.inQuotes
    ensures Run(Eol(crlf) + rest, p) == Run(rest, p.EndRow())
  {
    assert ("\n" + rest)[1..] == rest;
    assert ("\r\n" + rest)[1..] == "\n" + rest;
  }

  /** After the cells of a row the parser holds all but the last in row, and that one in cell. */
  lemma {:induction false} RunCells(row: Row, quoted: seq<bool>, rest: string, p: Progress)
    requires FitsRow(row, quoted) && !p.inQuotes && p.cell == "" && (rest == "" || rest[0] != '"')
    ensures Run(PrintCells(row, quoted) + rest, p)
            == Run(rest, Progress(p.rows, p.row + row[..|row| - 1], row[|row| - 1], false))
    decreases |row|
  {
    hide Run, PrintCell;
    var cell := PrintCell(row[0], quoted[0]);
    assert "" + row[0] == row[0];
    if |row| == 1 {
      assert row[..0] == [] && p.row + [] == p.row;
      assert PrintCells(row, quoted) + rest == cell + rest;
      RunCell(row[0], quoted[0], rest, p);
    } else {
      var tail := PrintCells(row[1..], quoted[1..]) + rest;
      assert PrintCells(row, quoted) + rest == cell + ("," + tail);
      RunCell(row[0], quoted[0], "," + tail, p);
      RunComma(tail, p.Put(row[0]));
      RunCells(row[1..], quoted[1..], rest, p.Put(row[0]).EndCell());
      assert p.row + [row[0]] + row[1..][..|row| - 2] == p.row + row[..|row| - 1];
    }
  }

  lemma RunRow(row: Row, quoted: seq<bool>, crlf: bool, rest: string, p: Progress)
    requires FitsRow(row, quoted) && p.row == [] && p.cell == "" && !p.inQuotes
    ensures Run(PrintCells(row, quoted) + Eol(crlf) + rest, p) == Run(rest, Progress(p.rows + [row], [], "", false))
  {
    hide Run, PrintCells;
    var t := Eol(crlf) + rest;
    assert PrintCells(row, quoted) + Eol(crlf) + rest == PrintCells(row, quoted) + t;
    RunCells(row, quoted, t, p);
    assert [] + row[..|row| - 1] == row[..|row| - 1];
    RunEol(crlf, rest, Progress(p.rows, row[..|row| - 1], row[|row| - 1], false));
    assert row[..|row| - 1] + [row[|row| - 1]] == row;
  }

  lemma {:induction false} RunRows(rows: seq<Row>, style: Style, p: Progress)
    requires style.Fits(rows) && p.row == [] && p.cell == "" && !p.inQuotes
    ensures Run(Print(rows, style), p) == Progress(p.rows + rows, [], "", false)
    decreases |rows|
  {
    if rows == [] {
      assert p.rows + rows == p.rows;
    } else {
      RunRow(rows[0], style.quoted[0], style.crlf[0], Print(rows[1..], style.Tail()), p);
      RunRows(rows[1..], style.Tail(), Progress(p.rows + [rows[0]], [], "", false));
      assert p.rows + [rows[0]] + rows[1..] == p.rows + rows;
    }
  }

  /** Any cell may be quoted; one without comma, quote and line break need not be. */
  lemma FitsIs(rows: seq<Row>, style: Style)
    ensures style.Fits(rows) <==>
            |style.quoted| == |rows| == |style.crlf|
            && forall i :: 0 <= i < |rows| ==>
                 rows[i] != [] && |style.quoted[i]| == |rows[i]|
                 && forall j :: 0 <= j < |rows[i]| ==>
                      style.quoted[i][j]
                      || forall k :: 0 <= k < |rows[i][j]| ==> rows[i][j][k] !in {',', '"', '\n', '\r'}
  {
  }

  /** Parsing inverts printing, whatever cells are quoted and whatever line ends are used. */
  lemma RoundTrip(rows: seq<Row>, style: Style)
    requires style.Fits(rows)
    ensures Parse(Print(rows, style)) == rows
  {
    RunRows(rows, style, START);
    assert [] + rows == rows;
  }

  lemma {:induction false} DoubledIs(c: string, d: string)
    requires '"' !in c && '"' !in d
    ensures Doubled(c) == c && Doubled(c + ("\"" + d)) == c + ("\"\"" + d)
  {
    if c == "" {
      assert c + ("\"" + d) == "\"" + d && ("\"" + d)[1..] == d;
      NothingDoubled(d);
      assert c + ("\"\"" + d) == "\"\"" + d;
    } else {
      assert (c + ("\"" + d))[1..] == c[1..] + ("\"" + d);
      DoubledIs(c[1..], d);
    }
  }

  lemma {:induction false} NothingDoubled(d: string)
    requires '"' !in d
    ensures Doubled(d) == d
  {
    if d != "" { NothingDoubled(d[1..]); }
  }

  /** On a text: two plain cells in a row ended by CRLF, then a quoted cell with a quote in it and a row ended by LF. */
  lemma ParseText(a: string, b: string, c: string, d: string)
    requires Plain(a) && Plain(b) && '"' !in c && '"' !in d
    ensures Parse(a + ("," + (b + ("\r\n" + ("\"" + (c + ("\"\"" + (d + ("\"" + "\n")))))))))
            == [[a, b], [c + ("\"" + d)]]
  {
    hide Parse, Plain, Doubled;
    var cell := c + ("\"" + d);
    var rows, last: seq<Row> := [[a, b]] + [[cell]], [[cell]];
    var style := Style([[false, false], [true]], [true, false]);
    var second := "\"" + (c + ("\"\"" + d)) + "\"";
    DoubledIs(c, d);
    assert PrintCell(cell, true) == second;
    var tail := style.Tail();
    assert tail == Style([[true]], [false]) && rows[1..] == last && last[1..] == [];
    assert PrintCells([cell], [true]) == second + "" == second;
    assert Print(last, tail) == second + "\n" + "";
    assert PrintCells([b], [false]) == b + "" == b;
    assert [a, b][1..] == [b] && [false, false][1..] == [false];
    assert PrintCells([a, b], [false, false]) == a + ("," + b);
    assert Print(rows, style) == (a + ("," + b)) + "\r\n" + (second + "\n");
    RoundTrip(rows, style);
    assert a + ("," + (b + ("\r\n" + ("\"" + (c + ("\"\"" + (d + ("\"" + "\n"))))))))
           == (a + ("," + b)) + "\r\n" + (second + "\n");
  }

  lemma {:induction false} RunOpen(rows: seq<Row>, style: Style, p: Progress)
    requires style.Fits(rows) && rows != [] && p.row == [] && p.cell == "" && !p.inQuotes
    ensures var last := rows[|rows| - 1];
            Run(PrintOpen(rows, style), p)
            == Progress(p.rows + rows[..|rows| - 1], last[..|last| - 1], last[|last| - 1], false)
    decreases |rows|
  {
    hide Run, PrintCells;
    if |rows| == 1 {
      var row := rows[0];
      assert rows[..0] == [] && p.rows + [] == p.rows;
      assert PrintOpen(rows, style) == PrintCells(row, style.quoted[0]) + "";
      RunCells(row, style.quoted[0], "", p);
      RunEnd(Progress(p.rows, p.row + row[..|row| - 1], row[|row| - 1], false));
      assert p.rows + rows[..0] == p.rows && [] + row[..|row| - 1] == row[..|row| - 1];
    } else {
      var rest := PrintOpen(rows[1..], style.Tail());
      assert PrintOpen(rows, style) == PrintCells(rows[0], style.quoted[0]) + Eol(style.crlf[0]) + rest;
      RunRow(rows[0], style.quoted[0], style.crlf[0], rest, p);
      RunOpen(rows[1..], style.Tail(), Progress(p.rows + [rows[0]], [], "", false));
      assert p.rows + [rows[0]] + rows[1..][..|rows| - 2] == p.rows + rows[..|rows| - 1];
    }
  }

  /** Without the last line break the round trip holds exactly when the last row is not one empty cell. */
  lemma OpenRoundTrip(rows: seq<Row>, style: Style)
    requires style.Fits(rows) && rows != []
    ensures Parse(PrintOpen(rows, style)) == rows <==> rows[|rows| - 1] != [""]
    ensures rows[|rows| - 1] == [""] ==> Parse(PrintOpen(rows, style)) == rows[..|rows| - 1]
  {
    var last := rows[|rows| - 1];
    RunOpen(rows, style, START);
    assert last[..|last| - 1] + [last[|last| - 1]] == last;
    assert rows[..|rows| - 1] + [last] == rows;
    assert [] + rows[..|rows| - 1] == rows[..|rows| - 1];
    if |last| == 1 {
      assert last == [last[0]];
    }
  }

  lemma {:induction false} RunKeepsRowsNonEmpty(t: string, p: Progress)
    requires forall row :: row in p.rows ==> row != []
    ensures forall row :: row in Run(t, p).rows ==> row != []
    decreases |t|
  {
    if t != "" {
      if p.inQuotes {
        if t[0] == '"' && |t| > 1 && t[1] == '"' {
          RunKeepsRowsNonEmpty(t[2..], p.Put("\""));
        } else if t[0] == '"' {
          RunKeepsRowsNonEmpty(t[1..], p.Quoting(false));
        } else {
          RunKeepsRowsNonEmpty(t[1..], p.Put([t[0]]));
        }
      } else {
        match t[0]
        case '"' => RunKeepsRowsNonEmpty(t[1..], p.Quoting(true));
        case ',' => RunKeepsRowsNonEmpty(t[1..], p.EndCell());
        case '\n' => RunKeepsRowsNonEmpty(t[1..], p.EndRow());
        case '\r' => RunKeepsRowsNonEmpty(t[1..], p);
        case c => RunKeepsRowsNonEmpty(t[1..], p.Put([c]));
      }
    }
  }

  lemma ParsedRowsNonEmpty(t: string)
    ensures forall i :: 0 <= i < |Parse(t)| ==> Parse(t)[i] != []
  {
    hide Run;
    RunKeepsRowsNonEmpty(t, START);
    var p := Run(t, START);
    forall i | 0 <= i < |Parse(t)| ensures Parse(t)[i] != [] {
      if i < |p.rows| {
        assert p.rows[i] in p.rows;
      }
    }
  }

  /** Whatever text was parsed, printing its table in full quotes and parsing again changes nothing. */
  lemma ParseIsStable(t: string, style: Style)
    requires |style.quoted| == |style.crlf| == |Parse(t)|
    requires forall i :: 0 <= i < |Parse(t)| ==>
               |style.quoted[i]| == |Parse(t)[i]| && forall j :: 0 <= j < |Parse(t)[i]| ==> style.quoted[i][j]
    ensures style.Fits(Parse(t)) && Parse(Print(Parse(t), style)) == Parse(t)
  {
    hide Parse, Print;
    ParsedRowsNonEmpty(t);
    RoundTrip(Parse(t), style);
  }
}
