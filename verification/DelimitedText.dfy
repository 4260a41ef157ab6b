/** The delimited-text parser of `packages/contracts/src/import.ts`, and the printer it undoes.

    The parser is the character loop of the source. The printer follows section 2 of RFC 4180: a
    cell that holds a separator, a quote or a line break is quoted, any other may be, and rows end
    in LF or CRLF. */
module DelimitedText {
  import opened Text

  const QUOTE: char := '"'
  const CR: char := '\r'
  const LF: char := '\n'
  const BOM: char := '\U{FEFF}'

  type Table = seq<seq<string>>

  // ---------------------------------------------------------------------------
  // The parser
  // ---------------------------------------------------------------------------

  /** The loop's variables. */
  datatype Scanner = Scanner(rows: Table, row: seq<string>, field: string, inQuotes: bool)

  const START := Scanner([], [], "", false)

  /** The scanner after reading all of `input`. */
  function Scan(input: string, sep: char, at: Scanner): Scanner
    decreases |input|
  {
    if input == [] then at
    else
      var c := input[0];
      if at.inQuotes then
        if c != QUOTE then Scan(input[1..], sep, at.(field := at.field + [c]))
        else if |input| > 1 && input[1] == QUOTE then Scan(input[2..], sep, at.(field := at.field + [QUOTE]))
        else Scan(input[1..], sep, at.(inQuotes := false))
      else if c == QUOTE then Scan(input[1..], sep, at.(inQuotes := true))
      else if c == sep then Scan(input[1..], sep, at.(row := at.row + [at.field], field := ""))
      else if c == LF then
        Scan(input[1..], sep, Scanner(at.rows + [at.row + [at.field]], [], "", at.inQuotes))
      else if c == CR then Scan(input[1..], sep, at)
      else Scan(input[1..], sep, at.(field := at.field + [c]))
  }

  /** A last row without a line end still counts, unless nothing at all was read for it. */
  function Close(at: Scanner): Table {
    if |at.field| > 0 || |at.row| > 0 then at.rows + [at.row + [at.field]] else at.rows
  }

  predicate BlankRow(cells: seq<string>) {
    forall i :: 0 <= i < |cells| ==> AllSpace(cells[i])
  }

  function DropBlank(rows: Table): Table {
    if rows == [] then [] else (if BlankRow(rows[0]) then [] else [rows[0]]) + DropBlank(rows[1..])
  }

  function StripBom(text: string): string {
    if text != [] && text[0] == BOM then text[1..] else text
  }

  function Parsed(text: string, sep: char): Table {
    DropBlank(Close(Scan(StripBom(text), sep, START)))
  }

  method ParseDelimited(text: string, delimiter: Option<char>) returns (result: Table)
    ensures result == Parsed(text, if delimiter.Some? then delimiter.value else Detected(StripBom(text)))
  {
    var input := if text != [] && text[0] == BOM then text[1..] else text;
    var sep: char;
    if delimiter.Some? {
      sep := delimiter.value;
    } else {
      sep := DetectDelimiter(input);
    }

    var rows: Table := [];
    var row: seq<string> := [];
    var field := "";
    var inQuotes := false;
    var index := 0;
    while index < |input|
      invariant 0 <= index <= |input|
      invariant Scan(input[index..], sep, Scanner(rows, row, field, inQuotes)) == Scan(input, sep, START)
    {
      var c := input[index];
      assert input[index..][1..] == input[index + 1..];
      if inQuotes {
        if c == QUOTE {
          if index + 1 < |input| && input[index + 1] == QUOTE {
            field := field + [QUOTE];
            index := index + 1;
            assert input[index - 1..][2..] == input[index + 1..];
          } else {
            inQuotes := false;
          }
        } else {
          field := field + [c];
        }
      } else if c == QUOTE {
        inQuotes := true;
      } else if c == sep {
        row := row + [field];
        field := "";
      } else if c == LF {
        row := row + [field];
        rows := rows + [row];
        row := [];
        field := "";
      } else if c == CR {
      } else {
        field := field + [c];
      }
      index := index + 1;
    }
    if |field| > 0 || |row| > 0 {
      row := row + [field];
      rows := rows + [row];
    }
    result := Filter(rows);
  }

  method Filter(rows: Table) returns (kept: Table)
    ensures kept == DropBlank(rows)
  {
    kept := [];
    for i := 0 to |rows|
      invariant kept == DropBlank(rows[..i])
    {
      var some := exists j :: 0 <= j < |rows[i]| && |Trim(rows[i][j])| > 0;
      assert some == !BlankRow(rows[i]) by {
        forall j | 0 <= j < |rows[i]| { TrimEmpty(rows[i][j]); }
      }
      DropBlankAppend(rows[..i], [rows[i]]);
      assert rows[..i + 1] == rows[..i] + [rows[i]];
      if some {
        kept := kept + [rows[i]];
      }
    }
    assert rows[..|rows|] == rows;
  }

  // ---------------------------------------------------------------------------
  // Detecting the separator
  // ---------------------------------------------------------------------------

  const CANDIDATES: seq<char> := [',', '\t', ';', '|']

  /** Everything before the first line break; a carriage return right before it is part of it. */
  function FirstLine(text: string): string {
    if text == [] || text[0] == LF || (|text| > 1 && text[0] == CR && text[1] == LF) then []
    else [text[0]] + FirstLine(text[1..])
  }

  function Occurrences(c: char, s: string): nat {
    if s == [] then 0 else (if s[0] == c then 1 else 0) + Occurrences(c, s[1..])
  }

  predicate Unbeaten(c: char, line: string) {
    forall d <- CANDIDATES :: Occurrences(d, line) <= Occurrences(c, line)
  }

  /** The first candidate that no other one outnumbers in the header line; that is the comma when
      none occurs. */
  function Detected(text: string): char {
    var line := FirstLine(text);
    if Unbeaten(',', line) then ',' else if Unbeaten('\t', line) then '\t' else if Unbeaten(';', line) then ';' else '|'
  }

  /** The source sorts the counts, largest first, with a stable sort, and takes the head. */
  method DetectDelimiter(text: string) returns (sep: char)
    ensures sep == Detected(text)
  {
    var line := FirstLine(text);
    var counts := seq(|CANDIDATES|, i requires 0 <= i < |CANDIDATES| => (CANDIDATES[i], Occurrences(CANDIDATES[i], line)));
    var best := counts[0];
    ghost var at := 0;
    for i := 1 to |counts|
      invariant forall k :: 0 <= k < i ==> counts[k].1 <= best.1
      invariant 0 <= at < i && best == counts[at] && forall m :: 0 <= m < at ==> counts[m].1 < best.1
    {
      if counts[i].1 > best.1 {
        best := counts[i];
        at := i;
      }
    }
    assert forall m :: 0 <= m < |CANDIDATES| ==> counts[m].1 == Occurrences(CANDIDATES[m], line);
    assert Unbeaten(best.0, line);
    assert forall m :: 0 <= m < at ==> !Unbeaten(CANDIDATES[m], line);
    assert best.0 == CANDIDATES[at];
    assert at == 0 || at == 1 || at == 2 || at == 3;
    assert CANDIDATES[0] == ',' && CANDIDATES[1] == '\t' && CANDIDATES[2] == ';' && CANDIDATES[3] == '|';
    sep := if best.1 > 0 then best.0 else ',';
  }

  // ---------------------------------------------------------------------------
  // The printer
  // ---------------------------------------------------------------------------

  /** A cell together with the printer's choice to quote it. */
  datatype Cell = Cell(text: string, quoted: bool)

  /** A row together with the line end chosen for it. */
  datatype Line = Line(cells: seq<Cell>, crlf: bool)

  predicate IsSeparator(sep: char) {
    sep != QUOTE && sep != CR && sep != LF
  }

  predicate Plain(text: string, sep: char) {
    sep !in text && QUOTE !in text && CR !in text && LF !in text
  }

  /** Quoting is compulsory where the text would otherwise be misread, and free elsewhere. */
  predicate PrintableCells(cells: seq<Cell>, sep: char) {
    forall c <- cells :: !c.quoted ==> Plain(c.text, sep)
  }

  predicate Printable(lines: seq<Line>, sep: char) {
    forall line <- lines :: PrintableCells(line.cells, sep)
  }

  function Escaped(text: string): string {
    if text == [] then [] else (if text[0] == QUOTE then [QUOTE, QUOTE] else [text[0]]) + Escaped(text[1..])
  }

  function PrintCell(cell: Cell): string {
    if cell.quoted then [QUOTE] + (Escaped(cell.text) + [QUOTE]) else cell.text
  }

  function PrintCells(cells: seq<Cell>, sep: char): string {
    if cells == [] then []
    else if |cells| == 1 then PrintCell(cells[0])
    else PrintCell(cells[0]) + ([sep] + PrintCells(cells[1..], sep))
  }

  function LineEnd(crlf: bool): string {
    if crlf then [CR, LF] else [LF]
  }

  /** The whole table; `terminated` says whether the last row gets its line end. */
  function Print(lines: seq<Line>, sep: char, terminated: bool): string {
    if lines == [] then []
    else
      PrintCells(lines[0].cells, sep)
      + ((if |lines| > 1 || terminated then LineEnd(lines[0].crlf) else [])
         + Print(lines[1..], sep, terminated))
  }

  function Texts(cells: seq<Cell>): seq<string> {
    seq(|cells|, i requires 0 <= i < |cells| => cells[i].text)
  }

  function Contents(lines: seq<Line>): Table {
    seq(|lines|, i requires 0 <= i < |lines| => Texts(lines[i].cells))
  }

  // ---------------------------------------------------------------------------
  // The parser undoes the printer
  // ---------------------------------------------------------------------------

  lemma {:induction false} DropBlankAppend(xs: Table, ys: Table)
    ensures DropBlank(xs + ys) == DropBlank(xs) + DropBlank(ys)
  {
    if xs == [] {
      assert xs + ys == ys;
    } else {
      hide BlankRow;
      DropBlankAppend(xs[1..], ys);
      var head := if BlankRow(xs[0]) then [] else [xs[0]];
      assert (xs + ys)[0] == xs[0] && (xs + ys)[1..] == xs[1..] + ys;
      assert DropBlank(xs + ys) == head + DropBlank(xs[1..] + ys);
      Regroup(head, DropBlank(xs[1..]), DropBlank(ys));
    }
  }

  lemma {:induction false} ScanPlain(text: string, rest: string, sep: char, at: Scanner)
    requires Plain(text, sep) && !at.inQuotes
    ensures Scan(text + rest, sep, at) == Scan(rest, sep, at.(field := at.field + text))
    decreases |text|
  {
    if text == [] {
      assert text + rest == rest && at.field + text == at.field;
    } else {
      assert text[0] in text;
      ScanPlain(text[1..], rest, sep, at.(field := at.field + [text[0]]));
      assert (text + rest)[1..] == text[1..] + rest;
      assert at.field + [text[0]] + text[1..] == at.field + text;
    }
  }

  lemma {:induction false} ScanEscaped(text: string, rest: string, sep: char, at: Scanner)
    requires at.inQuotes && (rest == [] || rest[0] != QUOTE)
    ensures Scan(Escaped(text) + [QUOTE] + rest, sep, at)
         == Scan(rest, sep, at.(field := at.field + text, inQuotes := false))
    decreases |text|
  {
    var input := Escaped(text) + [QUOTE] + rest;
    if text == [] {
      assert input == [QUOTE] + rest && input[1..] == rest;
      assert at.field + text == at.field;
    } else {
      ScanEscaped(text[1..], rest, sep, at.(field := at.field + [text[0]]));
      assert at.field + [text[0]] + text[1..] == at.field + text;
      var tail := Escaped(text[1..]) + [QUOTE] + rest;
      if text[0] == QUOTE {
        assert input == [QUOTE, QUOTE] + tail && input[2..] == tail;
      } else {
        assert input == [text[0]] + tail && input[1..] == tail;
      }
    }
  }

  lemma ScanCell(cell: Cell, rest: string, sep: char, at: Scanner)
    requires IsSeparator(sep) && (!cell.quoted ==> Plain(cell.text, sep))
    requires !at.inQuotes && at.field == "" && (rest == [] || rest[0] != QUOTE)
    ensures Scan(PrintCell(cell) + rest, sep, at) == Scan(rest, sep, at.(field := cell.text))
  {
    assert at.field + cell.text == cell.text;
    if cell.quoted {
      var input := PrintCell(cell) + rest;
      assert input[1..] == Escaped(cell.text) + [QUOTE] + rest;
      ScanEscaped(cell.text, rest, sep, at.(inQuotes := true));
    } else {
      ScanPlain(cell.text, rest, sep, at);
    }
  }

  /** The two separating steps outside quotes: to the next cell, and to the next row. */
  lemma ScanSeparator(rest: string, sep: char, at: Scanner)
    requires IsSeparator(sep) && !at.inQuotes
    ensures Scan([sep] + rest, sep, at) == Scan(rest, sep, at.(row := at.row + [at.field], field := ""))
  {
    assert ([sep] + rest)[1..] == rest;
  }

  lemma ScanLineEnd(crlf: bool, rest: string, sep: char, at: Scanner)
    requires IsSeparator(sep) && !at.inQuotes
    ensures Scan(LineEnd(crlf) + rest, sep, at)
         == Scan(rest, sep, Scanner(at.rows + [at.row + [at.field]], [], "", false))
  {
    assert ([LF] + rest)[1..] == rest;
    if crlf {
      assert LineEnd(crlf) + rest == [CR] + ([LF] + rest);
      assert ([CR] + ([LF] + rest))[1..] == [LF] + rest;
    }
  }

  /** Where a printed row leaves the scanner: its last cell in `field` and all others in `row`. */
  function After(cells: seq<Cell>, at: Scanner): Scanner
    decreases |cells|
  {
    if cells == [] then at
    else if |cells| == 1 then at.(field := cells[0].text)
    else After(cells[1..], at.(row := at.row + [cells[0].text]))
  }

  lemma {:induction false} AfterRow(cells: seq<Cell>, at: Scanner)
    requires cells != []
    ensures var end := After(cells, at);
            end == at.(row := end.row, field := end.field) && end.row + [end.field] == at.row + Texts(cells)
    decreases |cells|
  {
    if |cells| == 1 {
      assert Texts(cells) == [cells[0].text];
    } else {
      var at' := at.(row := at.row + [cells[0].text]);
      AfterRow(cells[1..], at');
      assert at'.row + Texts(cells[1..]) == at.row + Texts(cells);
    }
  }

  lemma PrintCellsCons(cells: seq<Cell>, rest: string, sep: char)
    requires |cells| > 1
    ensures PrintCells(cells, sep) + rest == PrintCell(cells[0]) + ([sep] + (PrintCells(cells[1..], sep) + rest))
  {
    hide PrintCell;
    var head, tail := PrintCell(cells[0]), PrintCells(cells[1..], sep);
    assert (head + ([sep] + tail)) + rest == head + ([sep] + (tail + rest));
  }

  lemma {:induction false} ScanCells(cells: seq<Cell>, rest: string, sep: char, at: Scanner)
    requires IsSeparator(sep) && PrintableCells(cells, sep)
    requires !at.inQuotes && at.field == "" && (rest == [] || rest[0] != QUOTE)
    ensures Scan(PrintCells(cells, sep) + rest, sep, at) == Scan(rest, sep, After(cells, at))
    decreases |cells|
  {
    hide Scan, PrintCell, Plain;
    if |cells| == 0 {
      assert PrintCells(cells, sep) + rest == rest;
    } else if |cells| == 1 {
      ScanCell(cells[0], rest, sep, at);
    } else {
      var tail := PrintCells(cells[1..], sep) + rest;
      PrintCellsCons(cells, rest, sep);
      hide PrintCells;
      ScanCell(cells[0], [sep] + tail, sep, at);
      ScanSeparator(tail, sep, at.(field := cells[0].text));
      ScanCells(cells[1..], rest, sep, at.(row := at.row + [cells[0].text]));
    }
  }

  /** The scanner between two rows. */
  ghost predicate BetweenRows(at: Scanner) {
    at.row == [] && at.field == "" && !at.inQuotes
  }

  lemma ScanLine(line: Line, rest: string, sep: char, at: Scanner) returns (row: seq<string>)
    requires IsSeparator(sep) && PrintableCells(line.cells, sep) && BetweenRows(at)
    ensures Scan(PrintCells(line.cells, sep) + (LineEnd(line.crlf) + rest), sep, at)
         == Scan(rest, sep, at.(rows := at.rows + [row]))
    ensures DropBlank([row]) == DropBlank([Texts(line.cells)])
  {
    hide Scan;
    var end := After(line.cells, at);
    row := end.row + [end.field];
    ScanCells(line.cells, LineEnd(line.crlf) + rest, sep, at);
    if line.cells == [] {
      assert BlankRow(row) && BlankRow(Texts(line.cells));
    } else {
      AfterRow(line.cells, at);
      assert at.row + Texts(line.cells) == Texts(line.cells);
    }
    ScanLineEnd(line.crlf, rest, sep, end);
  }

  /** A last row without a line end comes back too, unless it was blank. */
  lemma CloseLine(line: Line, sep: char, at: Scanner)
    requires IsSeparator(sep) && PrintableCells(line.cells, sep) && BetweenRows(at)
    ensures DropBlank(Close(Scan(PrintCells(line.cells, sep), sep, at)))
         == DropBlank(at.rows) + DropBlank([Texts(line.cells)])
  {
    var texts := Texts(line.cells);
    var end := After(line.cells, at);
    assert Scan(PrintCells(line.cells, sep), sep, at) == end by {
      ScanCells(line.cells, [], sep, at);
      assert PrintCells(line.cells, sep) + [] == PrintCells(line.cells, sep);
    }
    DropBlankAppend(at.rows, [texts]);
    if line.cells == [] {
      assert BlankRow(texts);
    } else {
      AfterRow(line.cells, at);
      assert at.row + texts == texts;
      if |end.field| == 0 && |end.row| == 0 {
        assert texts == [""] && BlankRow(texts);
      }
    }
  }

  lemma ContentsCons(lines: seq<Line>)
    requires lines != []
    ensures DropBlank(Contents(lines)) == DropBlank([Texts(lines[0].cells)]) + DropBlank(Contents(lines[1..]))
  {
    DropBlankAppend([Texts(lines[0].cells)], Contents(lines[1..]));
    assert Contents(lines) == [Texts(lines[0].cells)] + Contents(lines[1..]);
  }

  lemma {:induction false} ScanLines(lines: seq<Line>, sep: char, terminated: bool, at: Scanner)
    requires IsSeparator(sep) && Printable(lines, sep) && BetweenRows(at)
    ensures DropBlank(Close(Scan(Print(lines, sep, terminated), sep, at)))
         == DropBlank(at.rows) + DropBlank(Contents(lines))
    decreases |lines|
  {
    if lines == [] {
      assert Contents(lines) == [];
    } else {
      hide Scan, Close, DropBlank, Contents, Print, PrintCells, LineEnd;
      var line, others := lines[0], lines[1..];
      ContentsCons(lines);
      PrintCons(lines, sep, terminated);
      if |lines| > 1 || terminated {
        var row := ScanLine(line, Print(others, sep, terminated), sep, at);
        var next := at.(rows := at.rows + [row]);
        ScanLines(others, sep, terminated, next);
        DropBlankAppend(at.rows, [row]);
        Regroup(DropBlank(at.rows), DropBlank([row]), DropBlank(Contents(others)));
      } else {
        CloseLine(line, sep, at);
        NothingLeft(lines);
      }
    }
  }

  lemma PrintCons(lines: seq<Line>, sep: char, terminated: bool)
    requires lines != []
    ensures Print(lines, sep, terminated)
         == if |lines| > 1 || terminated
            then PrintCells(lines[0].cells, sep) + (LineEnd(lines[0].crlf) + Print(lines[1..], sep, terminated))
            else PrintCells(lines[0].cells, sep)
  {
    hide PrintCells, LineEnd;
  }

  lemma Regroup(a: Table, b: Table, c: Table)
    ensures (a + b) + c == a + (b + c)
  {
  }

  lemma NothingLeft(lines: seq<Line>)
    requires |lines| == 1
    ensures DropBlank([Texts(lines[0].cells)]) + DropBlank(Contents(lines[1..])) == DropBlank([Texts(lines[0].cells)])
  {
    hide Texts;
    assert Contents(lines[1..]) == [];
  }

  /** The byte-order mark is the one thing the parser takes away from a printed table: the text
      begins with it and the row it belongs to is not blank. */
  ghost predicate LosesBom(lines: seq<Line>, sep: char, terminated: bool) {
    var text := Print(lines, sep, terminated);
    text != [] && text[0] == BOM && !BlankRow(Texts(lines[0].cells))
  }

  /** Parsing a printed table gives back its rows without the blank ones, for every table, every
      separator and every choice the printer has, exactly when no byte-order mark is lost. */
  lemma RoundTrip(lines: seq<Line>, sep: char, terminated: bool)
    requires IsSeparator(sep) && Printable(lines, sep)
    ensures Parsed(Print(lines, sep, terminated), sep) == DropBlank(Contents(lines))
       <==> !LosesBom(lines, sep, terminated)
  {
    var text := Print(lines, sep, terminated);
    hide Scan, Print, BlankRow;
    if text == [] || text[0] != BOM {
      ScanLines(lines, sep, terminated, START);
    } else {
      var lines' := WithoutBom(lines, sep, terminated);
      ScanLines(lines', sep, terminated, START);
      ContentsCons(lines);
      ContentsCons(lines');
      var row, row' := Texts(lines[0].cells), Texts(lines'[0].cells);
      assert DropBlank([row]) == if BlankRow(row) then [] else [row];
      assert DropBlank([row']) == if BlankRow(row') then [] else [row'];
      if !BlankRow(row) {
        assert ([row] + DropBlank(Contents(lines[1..])))[0] != ([row'] + DropBlank(Contents(lines[1..])))[0];
      }
    }
  }

  /** So the separator does not matter: any two of them give the same table back. */
  lemma SeparatorDoesNotMatter(lines: seq<Line>, a: char, b: char, terminated: bool)
    requires IsSeparator(a) && IsSeparator(b) && Printable(lines, a) && Printable(lines, b)
    requires !LosesBom(lines, a, terminated) && !LosesBom(lines, b, terminated)
    ensures Parsed(Print(lines, a, terminated), a) == Parsed(Print(lines, b, terminated), b)
  {
    hide Parsed, Print, Printable, LosesBom;
    RoundTrip(lines, a, terminated);
    RoundTrip(lines, b, terminated);
  }

  /** Dropping a leading byte-order mark from the text amounts to dropping it from the first cell,
      or, when it is the separator, to dropping an empty first cell. */
  lemma WithoutBom(lines: seq<Line>, sep: char, terminated: bool) returns (lines': seq<Line>)
    requires IsSeparator(sep) && Printable(lines, sep)
    requires Print(lines, sep, terminated) != [] && Print(lines, sep, terminated)[0] == BOM
    ensures lines != [] && |lines'| == |lines| && lines'[1..] == lines[1..] && Printable(lines', sep)
    ensures Print(lines', sep, terminated) == Print(lines, sep, terminated)[1..]
    ensures Texts(lines'[0].cells) != Texts(lines[0].cells)
    ensures BlankRow(Texts(lines'[0].cells)) == BlankRow(Texts(lines[0].cells))
  {
    hide PrintCells, BlankRow;
    var cells := lines[0].cells;
    var tail := PrintTail(lines, sep, terminated);
    assert PrintCells(cells, sep) != [] by {
      assert Print(lines, sep, terminated)[0] == BOM;
    }
    var cells' := WithoutBomCells(cells, sep);
    lines' := [Line(cells', lines[0].crlf)] + lines[1..];
    assert lines'[1..] == lines[1..];
    assert PrintTail(lines', sep, terminated) == tail;
    assert (PrintCells(cells, sep) + tail)[1..] == PrintCells(cells, sep)[1..] + tail;
  }

  /** What follows the cells of the first row: nothing, or a line end and the other rows. */
  function PrintTail(lines: seq<Line>, sep: char, terminated: bool): (tail: string)
    requires lines != []
    ensures Print(lines, sep, terminated) == PrintCells(lines[0].cells, sep) + tail
    ensures tail == [] || tail[0] == LF || (|tail| > 1 && tail[0] == CR && tail[1] == LF)
  {
    if |lines| > 1 || terminated then LineEnd(lines[0].crlf) + Print(lines[1..], sep, terminated) else []
  }

  lemma WithoutBomCells(cells: seq<Cell>, sep: char) returns (cells': seq<Cell>)
    requires IsSeparator(sep) && PrintableCells(cells, sep)
    requires PrintCells(cells, sep) != [] && PrintCells(cells, sep)[0] == BOM
    ensures cells != [] && PrintableCells(cells', sep) && PrintCells(cells', sep) == PrintCells(cells, sep)[1..]
    ensures Texts(cells') != Texts(cells) && BlankRow(Texts(cells')) == BlankRow(Texts(cells))
  {
    hide BlankRow, AllSpace, Escaped;
    var first := cells[0];
    var text, rest := first.text, cells[1..];
    BlankRowCons(cells);
    assert AllSpace("") by { BlankText(); }
    if text == [] {
      cells' := rest;
      assert |Texts(cells)| != |Texts(cells')|;
    } else {
      var first' := Cell(text[1..], false);
      cells' := [first'] + rest;
      BlankRowCons(cells');
      assert cells'[1..] == rest;
      assert Texts(cells')[0] != Texts(cells)[0];
      BomIsSpace(text);
    }
  }

  lemma BlankText()
    ensures AllSpace("")
  {
  }

  lemma BomIsSpace(text: string)
    requires text != [] && text[0] == BOM
    ensures AllSpace(text) == AllSpace(text[1..])
  {
    assert forall i :: 1 <= i < |text| ==> text[i] == text[1..][i - 1];
  }

  lemma BlankRowCons(cells: seq<Cell>)
    requires cells != []
    ensures BlankRow(Texts(cells)) == (AllSpace(cells[0].text) && BlankRow(Texts(cells[1..])))
  {
    var texts := Texts(cells);
    var rest := Texts(cells[1..]);
    assert texts == [cells[0].text] + rest;
    assert texts[0] == cells[0].text;
    assert forall i :: 0 <= i < |rest| ==> rest[i] == texts[i + 1];
  }

  /** A cell that starts with a byte-order mark and was not quoted really is lost. */
  lemma BomIsLost()
    ensures var lines := [Line([Cell([BOM, 'a'], false)], false)];
            Printable(lines, ',') && Parsed(Print(lines, ',', true), ',') == [["a"]]
            && DropBlank(Contents(lines)) == [[[BOM, 'a']]]
  {
    var cells := [Cell([BOM, 'a'], false)];
    var lines := [Line(cells, false)];
    assert Texts(cells) == [[BOM, 'a']];
    assert Contents(lines) == [[[BOM, 'a']]];
    assert !AllSpace([BOM, 'a']) by { assert !IsSpace([BOM, 'a'][1]); }
    assert !BlankRow([[BOM, 'a']]) by { assert [[BOM, 'a']][0] == [BOM, 'a']; }
    assert [[[BOM, 'a']]][1..] == [];
    var lines' := [Line([Cell("a", false)], false)];
    assert Texts(lines'[0].cells) == ["a"];
    assert Contents(lines') == [["a"]] && [["a"]][1..] == [];
    assert !AllSpace("a") by { assert !IsSpace("a"[0]); }
    assert !BlankRow(["a"]) by { assert ["a"][0] == "a"; }
    assert Print(lines, ',', true)[1..] == Print(lines', ',', true) by {
      assert lines[1..] == [] && lines'[1..] == [];
    }
    ScanLines(lines', ',', true, START);
  }

  // ---------------------------------------------------------------------------
  // The separator need not be named
  // ---------------------------------------------------------------------------

  /** Everything before the first line feed. */
  function BeforeBreak(s: string): string {
    if s == [] || s[0] == LF then [] else [s[0]] + BeforeBreak(s[1..])
  }

  /** How often a character occurs in the first line of the printed header: in the texts, as far as that line
      goes, and as the true separator also between the cells. */
  function LineCount(cells: seq<Cell>, sep: char, c: char): nat {
    if cells == [] then 0
    else if LF in cells[0].text then Occurrences(c, BeforeBreak(cells[0].text))
    else Occurrences(c, cells[0].text)
         + if |cells| > 1 then (if c == sep then 1 else 0) + LineCount(cells[1..], sep, c) else 0
  }

  function Place(c: char): nat {
    if c == ',' then 0 else if c == '\t' then 1 else if c == ';' then 2 else 3
  }

  /** The separator outnumbers every other candidate in the first line, or ties with later ones only. */
  ghost predicate HeaderPicks(cells: seq<Cell>, sep: char) {
    forall d <- CANDIDATES :: d != sep ==> Outranks(sep, LineCount(cells, sep, sep), d, LineCount(cells, sep, d))
  }

  predicate Outranks(a: char, times: nat, b: char, others: nat) {
    others < times || (others == times && Place(a) < Place(b))
  }

  lemma {:induction false} OccurrencesAppend(c: char, s: string, t: string)
    ensures Occurrences(c, s + t) == Occurrences(c, s) + Occurrences(c, t)
  {
    if s == [] {
      assert s + t == t;
    } else {
      OccurrencesAppend(c, s[1..], t);
      assert (s + t)[1..] == s[1..] + t;
    }
  }

  lemma {:induction false} OccurrencesNone(c: char, s: string)
    requires c !in s
    ensures Occurrences(c, s) == 0
  {
    if s != [] {
      OccurrencesNone(c, s[1..]);
    }
  }

  lemma {:induction false} OccurrencesEscaped(c: char, text: string)
    requires c != QUOTE
    ensures Occurrences(c, Escaped(text)) == Occurrences(c, text)
  {
    if text != [] {
      OccurrencesEscaped(c, text[1..]);
      var head := if text[0] == QUOTE then [QUOTE, QUOTE] else [text[0]];
      OccurrencesAppend(c, head, Escaped(text[1..]));
      assert head[1..] == if text[0] == QUOTE then [QUOTE] else [];
    }
  }

  lemma {:induction false} BreakAppend(s: string, t: string)
    ensures BeforeBreak(s + t) == if LF in s then BeforeBreak(s) else s + BeforeBreak(t)
  {
    if s == [] {
      assert s + t == t;
    } else {
      BreakAppend(s[1..], t);
      assert (s + t)[0] == s[0] && (s + t)[1..] == s[1..] + t;
      assert s == [s[0]] + s[1..];
      assert [s[0]] + (s[1..] + BeforeBreak(t)) == ([s[0]] + s[1..]) + BeforeBreak(t);
    }
  }

  lemma {:induction false} BreakEscaped(text: string)
    ensures LF in Escaped(text) <==> LF in text
    ensures BeforeBreak(Escaped(text)) == Escaped(BeforeBreak(text))
  {
    if text != [] {
      BreakEscaped(text[1..]);
      var head := if text[0] == QUOTE then [QUOTE, QUOTE] else [text[0]];
      assert text == [text[0]] + text[1..];
      BreakAppend(head, Escaped(text[1..]));
      if text[0] == LF {
        assert Escaped(text)[0] == LF;
      } else {
        assert BeforeBreak(text)[0] == text[0] && BeforeBreak(text)[1..] == BeforeBreak(text[1..]);
      }
    }
  }

  /** The first line breaks at the line feed; a carriage return before it is nobody's separator. */
  lemma {:induction false} FirstLineCounts(c: char, text: string)
    requires c != CR
    ensures Occurrences(c, FirstLine(text)) == Occurrences(c, BeforeBreak(text))
  {
    if text == [] || text[0] == LF {
    } else if |text| > 1 && text[0] == CR && text[1] == LF {
      assert BeforeBreak(text[1..]) == [];
      assert BeforeBreak(text) == [CR];
    } else {
      FirstLineCounts(c, text[1..]);
    }
  }

  /** One printed cell: its text up to the break, if there is one, and otherwise all of it and what follows. */
  lemma CellCounts(c: char, cell: Cell, rest: string)
    requires c != QUOTE
    ensures Occurrences(c, BeforeBreak(PrintCell(cell) + rest))
         == if LF in cell.text then Occurrences(c, BeforeBreak(cell.text))
            else Occurrences(c, cell.text) + Occurrences(c, BeforeBreak(rest))
  {
    BreakAppend(PrintCell(cell), rest);
    if cell.quoted {
      QuotedCounts(c, cell.text);
    }
    OccurrencesAppend(c, PrintCell(cell), BeforeBreak(rest));
  }

  lemma QuotedCounts(c: char, text: string)
    requires c != QUOTE
    ensures var printed := [QUOTE] + (Escaped(text) + [QUOTE]);
            && (LF in printed <==> LF in text) && Occurrences(c, printed) == Occurrences(c, text)
            && (LF in text ==> Occurrences(c, BeforeBreak(printed)) == Occurrences(c, BeforeBreak(text)))
  {
    var printed := [QUOTE] + (Escaped(text) + [QUOTE]);
    BreakEscaped(text);
    BreakAppend([QUOTE], Escaped(text) + [QUOTE]);
    BreakAppend(Escaped(text), [QUOTE]);
    OccurrencesEscaped(c, text);
    OccurrencesEscaped(c, BeforeBreak(text));
    OccurrencesAppend(c, [QUOTE], Escaped(text) + [QUOTE]);
    OccurrencesAppend(c, Escaped(text), [QUOTE]);
    OccurrencesAppend(c, [QUOTE], Escaped(BeforeBreak(text)));
    OccurrencesNone(c, [QUOTE]);
    assert LF in printed <==> LF in Escaped(text);
  }

  /** What the detector counts in the first line of a printed table, quoting included. */
  lemma {:induction false} HeaderOccurrences(cells: seq<Cell>, tail: string, sep: char, c: char)
    requires c in CANDIDATES && sep in CANDIDATES && Occurrences(c, BeforeBreak(tail)) == 0
    ensures Occurrences(c, BeforeBreak(PrintCells(cells, sep) + tail)) == LineCount(cells, sep, c)
    decreases |cells|
  {
    hide PrintCell, BeforeBreak;
    if cells == [] {
      assert PrintCells(cells, sep) + tail == tail;
    } else if |cells| == 1 {
      CellCounts(c, cells[0], tail);
    } else {
      var rest := PrintCells(cells[1..], sep) + tail;
      PrintCellsCons(cells, tail, sep);
      CellCounts(c, cells[0], [sep] + rest);
      HeaderOccurrences(cells[1..], tail, sep, c);
      BreakAppend([sep], rest);
      OccurrencesAppend(c, [sep], BeforeBreak(rest));
      assert Occurrences(c, [sep]) == if c == sep then 1 else 0 by { assert [sep][1..] == []; }
    }
  }

  /** A leading byte-order mark is no candidate, so it does not matter to the counts. */
  lemma CountsWithoutBom(text: string, c: char)
    requires c in CANDIDATES
    ensures Occurrences(c, FirstLine(StripBom(text))) == Occurrences(c, FirstLine(text))
  {
    if text != [] && text[0] == BOM {
      assert FirstLine(text) == [BOM] + FirstLine(text[1..]);
      assert ([BOM] + FirstLine(text[1..]))[1..] == FirstLine(text[1..]);
    }
  }

  lemma CandidateIsOneOf(d: char)
    ensures d in CANDIDATES <==> d == ',' || d == '\t' || d == ';' || d == '|'
  {
    assert CANDIDATES[0] == ',' && CANDIDATES[1] == '\t' && CANDIDATES[2] == ';' && CANDIDATES[3] == '|';
  }

  lemma UnbeatenIff(c: char, line: string)
    ensures Unbeaten(c, line) <==>
              (Occurrences(',', line) <= Occurrences(c, line) && Occurrences('\t', line) <= Occurrences(c, line)
              && Occurrences(';', line) <= Occurrences(c, line) && Occurrences('|', line) <= Occurrences(c, line))
  {
    hide Occurrences;
    forall d: char ensures d in CANDIDATES <==> d == ',' || d == '\t' || d == ';' || d == '|' {
      CandidateIsOneOf(d);
    }
  }

  lemma PickedIff(text: string, sep: char)
    requires sep in CANDIDATES
    ensures var line := FirstLine(text);
            Detected(text) == sep <==>
              forall d <- CANDIDATES :: d != sep ==> Outranks(sep, Occurrences(sep, line), d, Occurrences(d, line))
  {
    hide FirstLine, Occurrences, Unbeaten;
    var line := FirstLine(text);
    forall d: char ensures d in CANDIDATES <==> d == ',' || d == '\t' || d == ';' || d == '|' {
      CandidateIsOneOf(d);
    }
    UnbeatenIff(',', line);
    UnbeatenIff('\t', line);
    UnbeatenIff(';', line);
    var commas, tabs := Occurrences(',', line), Occurrences('\t', line);
    var semicolons, bars := Occurrences(';', line), Occurrences('|', line);
    assert (forall d <- CANDIDATES :: d != sep ==> Outranks(sep, Occurrences(sep, line), d, Occurrences(d, line)))
      <==> ((sep == ',' || Outranks(sep, Occurrences(sep, line), ',', commas))
            && (sep == '\t' || Outranks(sep, Occurrences(sep, line), '\t', tabs))
            && (sep == ';' || Outranks(sep, Occurrences(sep, line), ';', semicolons))
            && (sep == '|' || Outranks(sep, Occurrences(sep, line), '|', bars)));
  }

  lemma TailCountsNothing(lines: seq<Line>, sep: char, terminated: bool, c: char)
    requires lines != [] && c in CANDIDATES
    ensures Occurrences(c, BeforeBreak(PrintTail(lines, sep, terminated))) == 0
  {
    hide Print, PrintCells;
    var tail := PrintTail(lines, sep, terminated);
    if tail != [] && tail[0] == CR {
      assert BeforeBreak(tail[1..]) == [];
      assert BeforeBreak(tail) == [CR];
    }
  }

  /** In every printed table, whatever its header, with or without a byte-order mark in front, the separator
      is detected exactly if the header picks it. */
  lemma DetectedIff(lines: seq<Line>, sep: char, terminated: bool)
    requires sep in CANDIDATES && Printable(lines, sep) && lines != []
    ensures Detected(StripBom(Print(lines, sep, terminated))) == sep <==> HeaderPicks(lines[0].cells, sep)
  {
    hide Print, PrintCells, FirstLine, BeforeBreak, Occurrences, LineCount, StripBom, Detected;
    var text, cells := Print(lines, sep, terminated), lines[0].cells;
    forall c <- CANDIDATES ensures Occurrences(c, FirstLine(StripBom(text))) == LineCount(cells, sep, c) {
      CountsWithoutBom(text, c);
      FirstLineCounts(c, text);
      TailCountsNothing(lines, sep, terminated, c);
      HeaderOccurrences(cells, PrintTail(lines, sep, terminated), sep, c);
    }
    PickedIff(StripBom(text), sep);
  }

  /** Whenever the header picks the separator, parsing without naming it gives the table back, with the one
      exception there is when it is named. */
  lemma DetectedRoundTrip(lines: seq<Line>, sep: char, terminated: bool)
    requires sep in CANDIDATES && Printable(lines, sep) && lines != [] && HeaderPicks(lines[0].cells, sep)
    ensures var text := Print(lines, sep, terminated);
            Parsed(text, Detected(StripBom(text))) == DropBlank(Contents(lines)) <==> !LosesBom(lines, sep, terminated)
  {
    hide HeaderPicks, LosesBom, Parsed, Print, Detected, StripBom;
    DetectedIff(lines, sep, terminated);
    RoundTrip(lines, sep, terminated);
  }

  /** Texts without any candidate leave no doubt: for the comma always, and for every separator with two
      columns on the first line. */
  lemma ClearHeaderPicks(cells: seq<Cell>, sep: char)
    requires sep in CANDIDATES && ((|cells| > 1 && LF !in cells[0].text) || sep == ',')
    requires forall c <- cells :: forall d <- CANDIDATES :: d !in c.text
    ensures HeaderPicks(cells, sep)
  {
    forall d <- CANDIDATES ensures d != sep ==> LineCount(cells, sep, d) == 0 {
      if d != sep { CountNone(cells, sep, d); }
    }
  }

  lemma {:induction false} CountNone(cells: seq<Cell>, sep: char, d: char)
    requires d != sep && forall c <- cells :: d !in c.text
    ensures LineCount(cells, sep, d) == 0
  {
    if cells != [] {
      OccurrencesNone(d, cells[0].text);
      BreakIsPart(cells[0].text);
      OccurrencesNone(d, BeforeBreak(cells[0].text));
      CountNone(cells[1..], sep, d);
    }
  }

  lemma {:induction false} BreakIsPart(s: string)
    ensures forall c <- BeforeBreak(s) :: c in s
  {
    if s != [] {
      BreakIsPart(s[1..]);
    }
  }
}
