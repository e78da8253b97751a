/**
 * The tokenizer of app.js: delimiter detection on the header line and the
 * quote-aware, character-by-character CSV scanner (`detectDelimiter`,
 * `parseCSV`).
 *
 * The reference definition `Run` is an automaton that reads one character
 * at a time; where the source looks one character ahead after a quote, the
 * automaton remembers that it has just seen a quote. The method `ParseCSV`
 * is the source's loop, with its lookahead, proved to compute `Parse`. The
 * writer `Unparse` (quote a field only when it needs it, double the quotes
 * inside) is the partner: parsing what it writes gives the table back.
 */
module Tokenizer {
  import opened Text

  // ---------------------------------------------------------------------
  // Delimiter detection
  // ---------------------------------------------------------------------

  /** Index of the first '\n' of `s`, or |s| when there is none. */
  function LineEnd(s: string): (k: nat)
    ensures k <= |s|
    ensures '\n' !in s[..k]
    ensures k < |s| ==> s[k] == '\n'
  {
    if s == [] || s[0] == '\n' then 0
    else
      var k := 1 + LineEnd(s[1..]);
      assert s[..k] == [s[0]] + s[1..][..k - 1];
      k
  }

  /** `csvText.split(/\r?\n/)[0] || ''`: the text before the first line break, the '\r' of a "\r\n" excluded. */
  function FirstLine(text: string): (r: string)
    ensures r <= text
    ensures '\n' !in r
    ensures |r| == |text| || text[|r|] == '\n' || (text[|r|] == '\r' && |r| + 1 < |text| && text[|r| + 1] == '\n')
    ensures |r| < |text| && text[|r|] == '\n' ==> r == [] || r[|r| - 1] != '\r'
  {
    var k := LineEnd(text);
    if 0 < k < |text| && text[k - 1] == '\r' then text[..k - 1] else text[..k]
  }

  /** `detectDelimiter`: ';' when the line holds strictly more semicolons than commas, ',' otherwise. */
  function DetectDelimiter(firstLine: string): (d: char)
    ensures d == ',' || d == ';'
    ensures d == ';' <==> Count(firstLine, ';') > Count(firstLine, ',')
  {
    if Count(firstLine, ';') > Count(firstLine, ',') then ';' else ','
  }

  /** The delimiter occurs |cells| - 1 times in the joined cells when no cell holds it. */
  lemma {:induction false} CountJoin(cells: seq<string>, d: char, c: char)
    requires forall k :: 0 <= k < |cells| ==> c !in cells[k]
    ensures cells != [] ==> Count(Join(cells, [d]), c) == if c == d then |cells| - 1 else 0
  {
    if |cells| == 1 {
      CountAbsent(cells[0], c);
    } else if |cells| > 1 {
      CountJoin(cells[1..], d, c);
      CountAbsent(cells[0], c);
      CountAppend(cells[0] + [d], Join(cells[1..], [d]), c);
      CountAppend(cells[0], [d], c);
      assert Count([d], c) == if c == d then 1 else 0 by {
        assert [d][1..] == [];
      }
    }
  }

  /**
   * A header written with delimiter d, whose cells hold neither ',' nor ';',
   * is detected as d: always for ',', and for ';' as soon as there are two
   * cells (a single cell has no delimiter at all, and the tie gives ',').
   */
  lemma DetectJoined(cells: seq<string>, d: char)
    requires d == ',' || d == ';'
    requires forall k :: 0 <= k < |cells| ==> ',' !in cells[k] && ';' !in cells[k]
    requires cells != []
    ensures DetectDelimiter(Join(cells, [d])) == (if |cells| >= 2 then d else ',')
  {
    CountJoin(cells, d, ',');
    CountJoin(cells, d, ';');
  }

  // ---------------------------------------------------------------------
  // The scanner
  // ---------------------------------------------------------------------

  /**
   * Where the scanner stands: outside quotes, inside quotes, or inside
   * quotes right after a quote, which either closes quoting or, when a
   * second quote follows, stands for one literal quote.
   */
  datatype Mode = Outside | Quoted | QuoteSeen

  /** The scanner's variables: the quote mode, the field buffer, the row buffer and the rows so far. */
  datatype Scan = Scan(mode: Mode, field: string, row: seq<string>, rows: seq<seq<string>>)

  const Start: Scan := Scan(Outside, "", [], [])

  predicate NoEmptyRow(rows: seq<seq<string>>) {
    forall k :: 0 <= k < |rows| ==> rows[k] != []
  }

  /**
   * One character outside quotes: a quote opens quoting (anywhere in a
   * field), the delimiter ends the field, '\n' ends the field and the row,
   * '\r' is dropped, anything else is appended. The quote is tested before
   * the delimiter and the delimiter before '\n' and '\r', as in the source.
   */
  function OutsideStep(c: char, d: char, st: Scan): Scan {
    if c == '"' then st.(mode := Quoted)
    else if c == d then Scan(Outside, "", st.row + [st.field], st.rows)
    else if c == '\n' then Scan(Outside, "", [], st.rows + [st.row + [st.field]])
    else if c == '\r' then st
    else st.(field := st.field + [c])
  }

  /**
   * One character in any mode. Inside quotes every character but the quote
   * is literal; a quote right after a quote is one literal quote; any other
   * character after a quote is read as outside quotes.
   */
  function Step(c: char, d: char, st: Scan): Scan {
    match st.mode
    case Quoted => if c == '"' then st.(mode := QuoteSeen) else st.(field := st.field + [c])
    case QuoteSeen => if c == '"' then st.(mode := Quoted, field := st.field + "\"") else OutsideStep(c, d, st.(mode := Outside))
    case Outside => OutsideStep(c, d, st)
  }

  /** The scanner after reading all of `s`. */
  function Run(s: string, d: char, st: Scan): Scan
    decreases |s|
  {
    if s == [] then st else Step(s[|s| - 1], d, Run(s[..|s| - 1], d, st))
  }

  /** Reading `a` then `b` is reading `a + b`. */
  lemma {:induction false} RunAppend(a: string, b: string, d: char, st: Scan)
    ensures Run(a + b, d, st) == Run(b, d, Run(a, d, st))
    decreases |b|
  {
    if b == [] {
      assert a + b == a;
    } else {
      var b' := b[..|b| - 1];
      assert (a + b)[..|a + b| - 1] == a + b' && (a + b)[|a + b| - 1] == b[|b| - 1];
      RunAppend(a, b', d, st);
    }
  }

  lemma RunOne(c: char, d: char, st: Scan)
    ensures Run([c], d, st) == Step(c, d, st)
  {
    assert [c][..0] == [];
  }

  /** Completed rows are never changed, and each of them holds at least one field. */
  lemma {:induction false} RunKeepsRows(s: string, d: char, st: Scan)
    ensures st.rows <= Run(s, d, st).rows
    ensures NoEmptyRow(st.rows) ==> NoEmptyRow(Run(s, d, st).rows)
    decreases |s|
  {
    if s != [] {
      RunKeepsRows(s[..|s| - 1], d, st);
    }
  }

  /** End of input: a pending field or row is flushed as the last row. */
  function Finish(st: Scan): seq<seq<string>> {
    if |st.field| > 0 || |st.row| > 0 then st.rows + [st.row + [st.field]] else st.rows
  }

  /** What `parseCSV(s, d)` returns. Every row it produces has at least one field. */
  function Parse(s: string, d: char): (rows: seq<seq<string>>)
    ensures NoEmptyRow(rows)
  {
    RunKeepsRows(s, d, Start);
    Finish(Run(s, d, Start))
  }

  /**
   * How the loop's variables stand for the automaton's state after the
   * first `i` characters: the buffers agree, and the quote flag is set
   * exactly in mode Quoted, except that a quote the loop has already
   * recognised as closing (no second quote follows) is still "just seen"
   * for the automaton.
   */
  ghost predicate Tracks(str: string, i: nat, inQ: bool, field: string, row: seq<string>, rows: seq<seq<string>>, st: Scan) {
    st.field == field && st.row == row && st.rows == rows &&
    (inQ <==> st.mode == Quoted) &&
    (st.mode == QuoteSeen ==> i >= |str| || str[i] != '"')
  }

  /** `parseCSV`: the source's loop, with its index, field buffer, quote flag, row buffer, row list and lookahead. */
  method ParseCSV(str: string, delim: char) returns (rows: seq<seq<string>>)
    ensures rows == Parse(str, delim)
  {
    rows := [];
    var i: nat, field: string, inQ: bool, row: seq<string> := 0, "", false, [];
    while i < |str|
      invariant i <= |str|
      invariant Tracks(str, i, inQ, field, row, rows, Run(str[..i], delim, Start))
    {
      var ch := str[i];
      i := i + 1;
      assert str[..i][..i - 1] == str[..i - 1];
      if inQ {
        if ch == '"' {
          if i < |str| && str[i] == '"' {
            field := field + "\"";
            i := i + 1;
            assert str[..i][..i - 1] == str[..i - 1];
          } else {
            inQ := false;
          }
        } else {
          field := field + [ch];
        }
      } else {
        if ch == '"' {
          inQ := true;
        } else if ch == delim {
          row := row + [field];
          field := "";
        } else if ch == '\n' {
          row := row + [field];
          rows := rows + [row];
          field := "";
          row := [];
        } else if ch == '\r' {
        } else {
          field := field + [ch];
        }
      }
    }
    assert str[..i] == str;
    if |field| > 0 || |row| > 0 {
      row := row + [field];
      rows := rows + [row];
    }
  }

  // ---------------------------------------------------------------------
  // The writer, and the round trip
  // ---------------------------------------------------------------------

  /** A delimiter the writer can use: not the quote and not a line-break character. */
  predicate ValidDelim(d: char) {
    d != '"' && d != '\n' && d != '\r'
  }

  /** A field that can be written bare: no delimiter, quote or line-break character. */
  predicate Plain(f: string, d: char) {
    forall k :: 0 <= k < |f| ==> f[k] != d && f[k] != '"' && f[k] != '\n' && f[k] != '\r'
  }

  /** Doubles every quote. */
  function Escape(f: string): string
    decreases |f|
  {
    if f == [] then [] else Escape(f[..|f| - 1]) + (if f[|f| - 1] == '"' then "\"\"" else [f[|f| - 1]])
  }

  /** A character that forces the writer to quote a field. */
  predicate Special(c: char, d: char) {
    c == d || c == '"' || c == '\n' || c == '\r'
  }

  function NeedsQuotes(f: string, d: char): bool
    decreases |f|
  {
    f != [] && (Special(f[|f| - 1], d) || NeedsQuotes(f[..|f| - 1], d))
  }

  lemma {:induction false} NeedsQuotesIff(f: string, d: char)
    ensures NeedsQuotes(f, d) <==> !Plain(f, d)
    decreases |f|
  {
    if f != [] {
      var f' := f[..|f| - 1];
      NeedsQuotesIff(f', d);
      assert Plain(f, d) <==> Plain(f', d) && !Special(f[|f| - 1], d) by {
        if Plain(f', d) && !Special(f[|f| - 1], d) {
          forall k | 0 <= k < |f| ensures !Special(f[k], d) {
            if k < |f| - 1 { assert f[k] == f'[k]; }
          }
        }
      }
    }
  }

  /** The writer quotes a field only when it holds the delimiter, a quote or a line-break character. */
  function EncodeField(f: string, d: char): string {
    if NeedsQuotes(f, d) then "\"" + Escape(f) + "\"" else f
  }

  function EncodeRow(fields: seq<string>, d: char): string {
    if fields == [] then []
    else if |fields| == 1 then EncodeField(fields[0], d)
    else EncodeField(fields[0], d) + [d] + EncodeRow(fields[1..], d)
  }

  /** Writes every row followed by "\n", or by "\r\n" when `crlf` holds. */
  function Unparse(table: seq<seq<string>>, d: char, crlf: bool): string {
    if table == [] then []
    else EncodeRow(table[0], d) + (if crlf then "\r\n" else "\n") + Unparse(table[1..], d, crlf)
  }

  /** Outside quotes, a bare field is appended to the field buffer. */
  lemma {:induction false} PlainRun(f: string, d: char, st: Scan)
    requires st.mode == Outside && Plain(f, d)
    ensures Run(f, d, st) == st.(field := st.field + f)
    decreases |f|
  {
    if f != [] {
      var f' := f[..|f| - 1];
      assert Plain(f', d) by {
        forall k | 0 <= k < |f'| ensures f'[k] == f[k] { }
      }
      PlainRun(f', d, st);
      assert st.field + f' + [f[|f| - 1]] == st.field + f;
    }
  }

  /** Inside quotes, an escaped field is appended literally: delimiters, line breaks and quotes included. */
  lemma {:induction false} EscapeRun(f: string, d: char, st: Scan)
    requires st.mode == Quoted
    ensures Run(Escape(f), d, st) == st.(field := st.field + f)
    decreases |f|
  {
    if f == [] {
      assert st.field + f == st.field;
    } else {
      var f', c := f[..|f| - 1], f[|f| - 1];
      var mid := st.(field := st.field + f');
      EscapeRun(f', d, st);
      if c == '"' {
        var seen := mid.(mode := QuoteSeen);
        assert Escape(f) == Escape(f') + [c] + [c];
        RunAppend(Escape(f'), [c], d, st);
        RunAppend(Escape(f') + [c], [c], d, st);
        RunOne(c, d, mid);
        RunOne(c, d, seen);
        assert Step(c, d, seen) == mid.(field := mid.field + "\"");
      } else {
        assert Escape(f) == Escape(f') + [c];
        RunAppend(Escape(f'), [c], d, st);
        RunOne(c, d, mid);
      }
      assert st.field + f' + [c] == st.field + f;
    }
  }

  /** The closing state of a field: outside quotes, or right after the closing quote. */
  predicate Closed(st: Scan) {
    st.mode == Outside || st.mode == QuoteSeen
  }

  /** Any field, as the writer encodes it, ends up in the field buffer and quoting is closed. */
  lemma FieldRun(f: string, d: char, st: Scan)
    requires st.mode == Outside && ValidDelim(d)
    ensures Closed(Run(EncodeField(f, d), d, st))
    ensures Run(EncodeField(f, d), d, st).(mode := Outside) == st.(field := st.field + f)
  {
    NeedsQuotesIff(f, d);
    if !NeedsQuotes(f, d) {
      PlainRun(f, d, st);
    } else {
      var q: string := "\"";
      RunAppend(q, Escape(f), d, st);
      RunAppend(q + Escape(f), q, d, st);
      assert Run(q, d, st) == st.(mode := Quoted) by {
        assert q[..0] == [];
      }
      EscapeRun(f, d, st.(mode := Quoted));
      assert q[..0] == [];
    }
  }

  /** After a closed field, the delimiter moves the field into the row buffer. */
  lemma DelimStep(d: char, st: Scan)
    requires Closed(st) && ValidDelim(d)
    ensures Run([d], d, st) == Scan(Outside, "", st.row + [st.field], st.rows)
  {
    RunOne(d, d, st);
  }

  /** After a closed field, '\n' completes the row, and '\r' before it is dropped. */
  lemma NewlineStep(d: char, st: Scan, crlf: bool)
    requires Closed(st) && ValidDelim(d)
    ensures Run(if crlf then "\r\n" else "\n", d, st) == Scan(Outside, "", [], st.rows + [st.row + [st.field]])
  {
    var done := Scan(Outside, "", [], st.rows + [st.row + [st.field]]);
    if crlf {
      var cr := st.(mode := Outside);
      assert Step('\r', d, st) == cr;
      assert Step('\n', d, cr) == done;
      RunOne('\r', d, st);
      RunOne('\n', d, cr);
      RunAppend("\r", "\n", d, st);
      assert "\r" + "\n" == "\r\n";
    } else {
      assert Step('\n', d, st) == done;
      RunOne('\n', d, st);
    }
  }

  /** A field and the delimiter after it move the field into the row buffer. */
  lemma HeadRun(f: string, d: char, acc: seq<string>, rows: seq<seq<string>>)
    requires ValidDelim(d)
    ensures Run(EncodeField(f, d) + [d], d, Scan(Outside, "", acc, rows)) == Scan(Outside, "", acc + [f], rows)
  {
    var st := Scan(Outside, "", acc, rows);
    var e0 := EncodeField(f, d);
    FieldRun(f, d, st);
    var s1 := Run(e0, d, st);
    assert s1.field == f && s1.row == acc && s1.rows == rows;
    RunAppend(e0, [d], d, st);
    DelimStep(d, s1);
  }

  /** The fields of one encoded row end up in the row buffer, the last one still in the field buffer. */
  lemma {:induction false} RowRun(fields: seq<string>, d: char, acc: seq<string>, rows: seq<seq<string>>)
    requires fields != [] && ValidDelim(d)
    ensures Closed(Run(EncodeRow(fields, d), d, Scan(Outside, "", acc, rows)))
    ensures Run(EncodeRow(fields, d), d, Scan(Outside, "", acc, rows)).(mode := Outside)
         == Scan(Outside, fields[|fields| - 1], acc + fields[..|fields| - 1], rows)
    decreases |fields|
  {
    var st := Scan(Outside, "", acc, rows);
    var n := |fields|;
    var e0 := EncodeField(fields[0], d);
    if n == 1 {
      FieldRun(fields[0], d, st);
      assert EncodeRow(fields, d) == e0;
      assert acc + fields[..0] == acc;
    } else {
      var er := EncodeRow(fields[1..], d);
      var s2 := Scan(Outside, "", acc + [fields[0]], rows);
      HeadRun(fields[0], d, acc, rows);
      EncodeRowCons(fields, d);
      RunAppend(e0 + [d], er, d, st);
      RowRun(fields[1..], d, acc + [fields[0]], rows);
      assert fields[1..][n - 2] == fields[n - 1];
      SliceCons(acc, fields);
    }
  }

  lemma EncodeRowCons(fields: seq<string>, d: char)
    requires |fields| > 1
    ensures EncodeRow(fields, d) == EncodeField(fields[0], d) + [d] + EncodeRow(fields[1..], d)
  {
  }

  /** A written table is read back row by row, whichever line ending was used. */
  lemma {:induction false} TableRun(table: seq<seq<string>>, d: char, crlf: bool, rows: seq<seq<string>>)
    requires ValidDelim(d) && NoEmptyRow(table)
    ensures Run(Unparse(table, d, crlf), d, Scan(Outside, "", [], rows)) == Scan(Outside, "", [], rows + table)
    decreases |table|
  {
    if table == [] {
      assert rows + table == rows;
    } else {
      var fields := table[0];
      var n := |fields|;
      var eol: string := if crlf then "\r\n" else "\n";
      var line, tail := EncodeRow(fields, d), Unparse(table[1..], d, crlf);
      var st := Scan(Outside, "", [], rows);
      assert Unparse(table, d, crlf) == line + eol + tail;
      RunAppend(line, eol, d, st);
      RunAppend(line + eol, tail, d, st);
      RowRun(fields, d, [], rows);
      NewlineStep(d, Run(line, d, st), crlf);
      SplitLast(fields);
      assert [] + fields[..n - 1] == fields[..n - 1];
      TableRun(table[1..], d, crlf, rows + [fields]);
      AppendCons(rows, table);
    }
  }

  /**
   * Round trip: parsing what the writer wrote gives back the table, for any
   * field contents (delimiters, quotes and line breaks included) and with
   * "\n" or "\r\n" line endings. Every row needs at least one field.
   */
  lemma ParseUnparse(table: seq<seq<string>>, d: char, crlf: bool)
    requires ValidDelim(d) && NoEmptyRow(table)
    ensures Parse(Unparse(table, d, crlf), d) == table
  {
    TableRun(table, d, crlf, []);
  }

  /**
   * One row without a line break is read back as one row, unless it is the
   * single empty field (empty input gives no row); a trailing line break
   * adds no empty row.
   */
  lemma ParseRow(fields: seq<string>, d: char)
    requires ValidDelim(d) && fields != [] && fields != [""]
    ensures Parse(EncodeRow(fields, d), d) == [fields]
    ensures Parse(EncodeRow(fields, d) + "\n", d) == [fields]
  {
    var line := EncodeRow(fields, d);
    RowState(fields, d);
    var r := Run(line, d, Start);
    assert Finish(r) == [] + [fields];
    RunAppend(line, "\n", d, Start);
    NewlineStep(d, r, false);
    assert Run(line + "\n", d, Start) == Scan(Outside, "", [], [] + [fields]);
  }

  /** After one encoded row the quoting is closed, no row is complete, and the buffers hold the fields. */
  lemma RowState(fields: seq<string>, d: char)
    requires ValidDelim(d) && fields != [] && fields != [""]
    ensures var r := Run(EncodeRow(fields, d), d, Start);
      Closed(r) && r.rows == [] && r.row + [r.field] == fields && (|r.field| > 0 || |r.row| > 0)
  {
    var n := |fields|;
    RowRun(fields, d, [], []);
    var r := Run(EncodeRow(fields, d), d, Start);
    SplitLast(fields);
    assert [] + fields[..n - 1] == fields[..n - 1];
    assert r.row + [r.field] == fields;
    if n == 1 {
      assert fields[0] != "";
    }
  }

  lemma {:induction false} EncodePlainRow(fields: seq<string>, d: char)
    requires forall k :: 0 <= k < |fields| ==> Plain(fields[k], d)
    ensures EncodeRow(fields, d) == Join(fields, [d])
    decreases |fields|
  {
    if fields != [] {
      NeedsQuotesIff(fields[0], d);
    }
    if |fields| > 1 {
      EncodePlainRow(fields[1..], d);
    }
  }

  /**
   * Fields free of the delimiter, the quote, '\n' and '\r', joined with the
   * delimiter into a non-empty line, are split back into the same fields.
   */
  lemma ParseJoin(fields: seq<string>, d: char)
    requires ValidDelim(d)
    requires forall k :: 0 <= k < |fields| ==> Plain(fields[k], d)
    requires Join(fields, [d]) != []
    ensures Parse(Join(fields, [d]), d) == [fields]
  {
    EncodePlainRow(fields, d);
    ParseRow(fields, d);
  }

  /** A line of bare fields joined by a valid delimiter holds no line-break character. */
  lemma {:induction false} PlainLine(fields: seq<string>, d: char)
    requires ValidDelim(d)
    requires forall k :: 0 <= k < |fields| ==> Plain(fields[k], d)
    ensures forall j :: 0 <= j < |Join(fields, [d])| ==> Join(fields, [d])[j] != '\n' && Join(fields, [d])[j] != '\r'
    decreases |fields|
  {
    if |fields| > 1 {
      PlainLine(fields[1..], d);
      var line := Join(fields, [d]);
      assert line == fields[0] + [d] + Join(fields[1..], [d]);
      forall j | 0 <= j < |line| ensures line[j] != '\n' && line[j] != '\r' {
        if j < |fields[0]| {
          assert line[j] == fields[0][j];
        } else if j > |fields[0]| {
          assert line[j] == Join(fields[1..], [d])[j - |fields[0]| - 1];
        }
      }
    }
  }

  /** The first line of a written table is its header row when that row is written bare. */
  lemma FirstLineOfUnparse(table: seq<seq<string>>, d: char, crlf: bool)
    requires table != [] && ValidDelim(d)
    requires forall k :: 0 <= k < |table[0]| ==> Plain(table[0][k], d)
    ensures FirstLine(Unparse(table, d, crlf)) == Join(table[0], [d])
  {
    EncodePlainRow(table[0], d);
    var line := Join(table[0], [d]);
    PlainLine(table[0], d);
    assert '\n' !in line && (line == [] || line[|line| - 1] != '\r');
    FirstLineBefore(line, if crlf then "\r\n" else "\n", Unparse(table[1..], d, crlf));
  }

  /** A line free of '\n' and not ending in '\r', followed by a line break, is the first line. */
  lemma FirstLineBefore(line: string, eol: string, rest: string)
    requires '\n' !in line && (line == [] || line[|line| - 1] != '\r')
    requires eol == "\n" || eol == "\r\n"
    ensures FirstLine(line + eol + rest) == line
  {
    var text := line + eol + rest;
    var p := line + eol[..|eol| - 1];
    assert p <= text;
    assert text[|p|] == '\n';
    LineEndAt(text, p);
    if eol == "\r\n" {
      assert text[|p| - 1] == '\r';
      assert text[..|p| - 1] == line;
    } else {
      assert p == line;
      assert text[..|p|] == line;
    }
  }

  /** The first '\n' is found right after a prefix free of it. */
  lemma {:induction false} LineEndAt(s: string, p: string)
    requires p <= s && '\n' !in p
    ensures |p| < |s| && s[|p|] == '\n' ==> LineEnd(s) == |p|
    ensures LineEnd(s) >= |p|
  {
    if p != [] {
      LineEndAt(s[1..], p[1..]);
    }
  }
}
