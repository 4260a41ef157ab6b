/** What the parser of `DelimitedText` makes of text that no printer writes: quotes in the middle of a
    cell, a quote that is never closed, stray carriage returns; and which rows it drops. */
module LooseText {
  import opened Text
  import opened DelimitedText

  /** A row is kept exactly if one of its cells has something other than white space in it. */
  lemma {:induction false} KeptIff(rows: Table, row: seq<string>)
    ensures row in DropBlank(rows) <==> row in rows && exists i, j :: 0 <= i < |row| && 0 <= j < |row[i]| && !IsSpace(row[i][j])
    ensures |DropBlank(rows)| <= |rows|
  {
    if rows != [] {
      KeptIff(rows[1..], row);
      assert rows == [rows[0]] + rows[1..];
      BlankIff(rows[0]);
      BlankIff(row);
    }
  }

  lemma BlankIff(row: seq<string>)
    ensures BlankRow(row) <==> forall i, j :: 0 <= i < |row| && 0 <= j < |row[i]| ==> IsSpace(row[i][j])
  {
    hide IsSpace;
  }

  /** Outside quotes a carriage return is no character at all. */
  lemma StrayReturn(before: string, after: string, sep: char, at: Scanner)
    requires IsSeparator(sep) && !at.inQuotes && Plain(before, sep)
    ensures Scan(before + [CR] + after, sep, at) == Scan(before + after, sep, at)
  {
    hide Plain;
    var there := at.(field := at.field + before);
    ScanPlain(before, [CR] + after, sep, at);
    ScanPlain(before, after, sep, at);
    assert before + [CR] + after == before + ([CR] + after);
    assert ([CR] + after)[1..] == after;
    assert Scan([CR] + after, sep, there) == Scan(after, sep, there);
  }

  /** A quoted stretch may stand anywhere in a cell; it is read as part of the cell. */
  lemma QuotedStretch(before: string, inside: string, rest: string, sep: char, at: Scanner)
    requires IsSeparator(sep) && !at.inQuotes && Plain(before, sep) && (rest == [] || rest[0] != QUOTE)
    ensures Scan(before + [QUOTE] + Escaped(inside) + [QUOTE] + rest, sep, at)
         == Scan(rest, sep, at.(field := at.field + before + inside))
  {
    hide Escaped, Scan, Plain, IsSeparator;
    var quoted := Escaped(inside) + [QUOTE] + rest;
    assert before + [QUOTE] + Escaped(inside) + [QUOTE] + rest == before + ([QUOTE] + quoted);
    var there := at.(field := at.field + before);
    ScanPlain(before, [QUOTE] + quoted, sep, at);
    OpeningQuote(quoted, sep, there);
    ScanEscaped(inside, rest, sep, there.(inQuotes := true));
  }

  lemma OpeningQuote(rest: string, sep: char, at: Scanner)
    requires !at.inQuotes
    ensures Scan([QUOTE] + rest, sep, at) == Scan(rest, sep, at.(inQuotes := true))
  {
    assert ([QUOTE] + rest)[1..] == rest;
  }

  /** A quote that is never closed takes the rest of the text, separators and line ends included, into its cell. */
  lemma {:induction false} UnclosedQuote(inside: string, sep: char, at: Scanner)
    requires at.inQuotes
    ensures Scan(Escaped(inside), sep, at) == at.(field := at.field + inside)
    decreases |inside|
  {
    if inside == [] {
      assert at.field + inside == at.field;
    } else {
      var tail := Escaped(inside[1..]);
      UnclosedQuote(inside[1..], sep, at.(field := at.field + [inside[0]]));
      assert at.field + [inside[0]] + inside[1..] == at.field + inside;
      if inside[0] == QUOTE {
        assert Escaped(inside) == [QUOTE, QUOTE] + tail && Escaped(inside)[2..] == tail;
      } else {
        assert Escaped(inside) == [inside[0]] + tail && Escaped(inside)[1..] == tail;
      }
    }
  }

  /** On the whole text: one cell with a quoted stretch in it. */
  lemma OneLooseCell(before: string, inside: string, after: string, sep: char)
    requires IsSeparator(sep) && Plain(before, sep) && Plain(after, sep) && (before == [] || before[0] != BOM)
    requires before + inside + after != []
    ensures Parsed(before + [QUOTE] + Escaped(inside) + [QUOTE] + after, sep) == DropBlank([[before + inside + after]])
  {
    hide DropBlank, Scan, Escaped, IsSeparator, StripBom, Close;
    NoMark(before, Escaped(inside) + [QUOTE] + after);
    assert before + [QUOTE] + Escaped(inside) + [QUOTE] + after == before + [QUOTE] + (Escaped(inside) + [QUOTE] + after);
    assert after != [] ==> after[0] in after;
    QuotedStretch(before, inside, after, sep, START);
    hide Plain;
    var read := before + inside;
    assert START.field + before + inside == read;
    ScanPlain(after, [], sep, START.(field := read));
    assert after + [] == after;
    ScanNothing(sep, START.(field := read + after));
    CloseOne(read + after);
  }

  /** And the same with the quote never closed. */
  lemma OneUnclosedCell(before: string, inside: string, sep: char)
    requires IsSeparator(sep) && Plain(before, sep) && (before == [] || before[0] != BOM) && before + inside != []
    ensures Parsed(before + [QUOTE] + Escaped(inside), sep) == DropBlank([[before + inside]])
  {
    hide DropBlank, Scan, Escaped, IsSeparator, StripBom, Close, Plain;
    NoMark(before, Escaped(inside));
    UnclosedFrom(before, inside, sep);
    CloseOne(before + inside);
  }

  lemma NoMark(before: string, rest: string)
    requires before == [] || before[0] != BOM
    ensures StripBom(before + [QUOTE] + rest) == before + [QUOTE] + rest
  {
    assert before != [] ==> (before + [QUOTE] + rest)[0] == before[0];
  }

  lemma ScanNothing(sep: char, at: Scanner)
    ensures Scan([], sep, at) == at
  {
  }

  lemma CloseOne(field: string)
    ensures field != [] ==> forall inQuotes :: Close(Scanner([], [], field, inQuotes)) == [[field]]
  {
    assert [] + [field] == [field];
    assert [] + [[field]] == [[field]];
  }

  lemma UnclosedFrom(before: string, inside: string, sep: char)
    requires IsSeparator(sep) && Plain(before, sep)
    ensures Scan(before + [QUOTE] + Escaped(inside), sep, START) == Scanner([], [], before + inside, true)
  {
    hide Escaped, Scan, Plain, IsSeparator;
    assert before + [QUOTE] + Escaped(inside) == before + ([QUOTE] + Escaped(inside));
    assert "" + before == before;
    ScanPlain(before, [QUOTE] + Escaped(inside), sep, START);
    OpeningQuote(Escaped(inside), sep, START.(field := before));
    UnclosedQuote(inside, sep, START.(field := before, inQuotes := true));
  }
}
