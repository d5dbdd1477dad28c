/** `print_centered_triangle(rows)`: for each row n in 0 .. rows - 1 it
    writes `rows - n` blanks, then every entry `generate_row(n, k)` for
    k = 0 .. n followed by one blank, then a newline. The model builds
    the text that reaches stdout instead of writing it. */
module Triangle {
  import opened Strings
  import opened Factorials
  import opened Binomials

  /** The printed form of each entry of row n, in order. */
  ghost function Cells(n: nat): (cells: seq<string>)
    ensures |cells| == n + 1
  {
    seq(n + 1, k => DecimalString(Binomial(n, k)))
  }

  /** Line n of the output, without its newline. */
  ghost function Line(rows: int, n: nat): string
    requires n < rows
  {
    Spaces(rows - n) + Terminated(Cells(n), ' ')
  }

  /** All lines, row 0 first; `range(rows)` is empty when rows <= 0. */
  ghost function Lines(rows: int): seq<string> {
    if rows <= 0 then [] else seq(rows, n requires 0 <= n < rows => Line(rows, n))
  }

  /** Everything the call writes to stdout. */
  ghost function Output(rows: int): string {
    Terminated(Lines(rows), '\n')
  }

  /** The two nested loops. Each `print` appends to `out`, which stands
      for stdout. */
  method PrintCenteredTriangle(rows: int) returns (out: string)
    ensures out == Output(rows)
  {
    out := "";
    var n := 0;
    while n < rows
      invariant 0 <= n && (n == 0 || n <= rows)
      invariant out == Terminated(Lines(rows)[..n], '\n')
    {
      ghost var done := out;
      out := out + Spaces(rows - n);
      for k := 0 to n + 1
        invariant out == done + Spaces(rows - n) + Terminated(Cells(n)[..k], ' ')
      {
        var entry := GenerateRow(n, k);
        CellsPrefix(done + Spaces(rows - n), n, k);
        out := out + DecimalString(entry) + " ";
      }
      LinesPrefix(done, rows, n);
      out := out + "\n";
      n := n + 1;
    }
    LinesComplete(rows, n);
  }

  /** Printing one more entry extends the text by that entry and a blank. */
  lemma CellsPrefix(before: string, n: nat, k: nat)
    requires k <= n
    ensures before + Terminated(Cells(n)[..k + 1], ' ') == before + Terminated(Cells(n)[..k], ' ') + DecimalString(Binomial(n, k)) + " "
  {
    var cells, cell := Cells(n), DecimalString(Binomial(n, k));
    assert cells[..k + 1] == cells[..k] + [cell];
    var t := Terminated(cells[..k], ' ');
    assert Terminated(cells[..k + 1], ' ') == t + cell + " " by {
      TerminatedSnoc(cells[..k], cell, ' ');
    }
    assert before + (t + cell + " ") == before + t + cell + " ";
  }

  /** Printing one more row extends the output by that line and a newline. */
  lemma LinesPrefix(done: string, rows: int, n: nat)
    requires n < rows && done == Terminated(Lines(rows)[..n], '\n')
    ensures Terminated(Lines(rows)[..n + 1], '\n') == done + Spaces(rows - n) + Terminated(Cells(n)[..n + 1], ' ') + "\n"
  {
    var lines, line := Lines(rows), Line(rows, n);
    assert lines[..n + 1] == lines[..n] + [line];
    assert Terminated(lines[..n + 1], '\n') == done + line + "\n" by {
      TerminatedSnoc(lines[..n], line, '\n');
    }
    assert Cells(n)[..n + 1] == Cells(n);
    var blanks, text := Spaces(rows - n), Terminated(Cells(n), ' ');
    assert done + (blanks + text) + "\n" == done + blanks + text + "\n";
  }

  lemma LinesComplete(rows: int, n: nat)
    requires n >= rows && (n == 0 || n <= rows)
    ensures Lines(rows)[..n] == Lines(rows)
  {
  }

  /** Lines hold only blanks and digits. */
  lemma {:induction false} NoNewlineInCells(cells: seq<string>)
    requires forall c :: c in cells ==> AllDigits(c)
    ensures '\n' !in Terminated(cells, ' ')
  {
    if cells != [] {
      NoNewlineInCells(cells[1..]);
      assert cells[0] in cells;
      assert forall i :: 0 <= i < |cells[0]| ==> IsDigit(cells[0][i]);
      assert '\n' !in cells[0];
    }
  }

  /** The output splits at its newlines into exactly `rows` lines (none
      when rows <= 0), row 0 first. */
  lemma OutputLines(rows: int)
    ensures |Lines(rows)| == (if rows > 0 then rows else 0)
    ensures Split(Output(rows), '\n') == Lines(rows)
  {
    forall l | l in Lines(rows)
      ensures '\n' !in l
    {
      var n :| 0 <= n < rows && l == Line(rows, n);
      NoNewlineInCells(Cells(n));
    }
    SplitTerminated(Lines(rows), '\n');
  }

  /** Line n starts with exactly rows - n blanks (the first entry is a
      digit string) and ends with the blank printed after its last entry;
      the rest, cut at its blanks, reads back as the entries C(n, 0) ..
      C(n, n) in increasing k. */
  lemma LineShape(rows: int, n: nat)
    requires n < rows
    ensures |Line(rows, n)| > rows - n
    ensures forall i :: 0 <= i < rows - n ==> Line(rows, n)[i] == ' '
    ensures IsDigit(Line(rows, n)[rows - n])
    ensures Line(rows, n)[|Line(rows, n)| - 1] == ' '
    ensures |Split(Line(rows, n)[rows - n..], ' ')| == n + 1
    ensures forall k :: 0 <= k <= n ==>
              var cell := Split(Line(rows, n)[rows - n..], ' ')[k];
              AllDigits(cell) && DecimalValue(cell) == Binomial(n, k) && Binomial(n, k) == Choose(n, k)
  {
    var line := Line(rows, n);
    var cells := Cells(n);
    assert line[rows - n..] == Terminated(cells, ' ');
    assert line[rows - n] == cells[0][0];
    forall c | c in cells
      ensures ' ' !in c
    {
      var k :| 0 <= k <= n && c == DecimalString(Binomial(n, k));
      assert forall i :: 0 <= i < |c| ==> IsDigit(c[i]);
    }
    SplitTerminated(cells, ' ');
    LineEndsWithBlank(rows, n);
    forall k | 0 <= k <= n
      ensures DecimalValue(cells[k]) == Binomial(n, k) && Binomial(n, k) == Choose(n, k)
    {
      DecimalRoundTrip(Binomial(n, k));
      DivisionIsExact(n, k);
    }
  }

  lemma LineEndsWithBlank(rows: int, n: nat)
    requires n < rows
    ensures |Line(rows, n)| > 0 && Line(rows, n)[|Line(rows, n)| - 1] == ' '
  {
    var cells := Cells(n);
    assert cells[..n] + [cells[n]] == cells;
    TerminatedSnoc(cells[..n], cells[n], ' ');
  }

  /** The five-row run the script performs at import time: five lines, the
      first carrying five blanks, one per row still to come. */
  lemma FiveRows()
    ensures Lines(5) == ["     1 ", "    1 1 ", "   1 2 1 ", "  1 3 3 1 ", " 1 4 6 4 1 "]
  {
    var lines := ["     1 ", "    1 1 ", "   1 2 1 ", "  1 3 3 1 ", " 1 4 6 4 1 "];
    forall n | 0 <= n < 5
      ensures Line(5, n) == lines[n]
    {
      FiveRowsLine(n, lines[n]);
    }
  }

  lemma FiveRowsLine(n: nat, line: string)
    requires n < 5
    requires line == ["     1 ", "    1 1 ", "   1 2 1 ", "  1 3 3 1 ", " 1 4 6 4 1 "][n]
    ensures Line(5, n) == line
  {
    SmallCells(n);
    if n == 0 {
      FiveRowsText0();
    } else if n == 1 {
      FiveRowsText1();
    } else if n == 2 {
      FiveRowsText2();
    } else if n == 3 {
      FiveRowsText3();
    } else {
      FiveRowsText4();
    }
  }

  // The blanks and the entries of rows 0 to 4, written out.
  lemma FiveRowsText0() ensures Spaces(5) + Terminated(["1"], ' ') == "     1 " {}
  lemma FiveRowsText1() ensures Spaces(4) + Terminated(["1", "1"], ' ') == "    1 1 " {}
  lemma FiveRowsText2() ensures Spaces(3) + Terminated(["1", "2", "1"], ' ') == "   1 2 1 " {}
  lemma FiveRowsText3() ensures Spaces(2) + Terminated(["1", "3", "3", "1"], ' ') == "  1 3 3 1 " {}
  lemma FiveRowsText4() ensures Spaces(1) + Terminated(["1", "4", "6", "4", "1"], ' ') == " 1 4 6 4 1 " {}

  /** The printed entries of rows 0 to 4. */
  lemma SmallCells(n: nat)
    requires n < 5
    ensures Cells(n) == [["1"], ["1", "1"], ["1", "2", "1"], ["1", "3", "3", "1"], ["1", "4", "6", "4", "1"]][n]
  {
    assert Fact(1) == 1 && Fact(2) == 2 && Fact(3) == 6 && Fact(4) == 24;
    RowEnds(n);
    assert DecimalString(1) == "1";
    if n == 2 {
      BinomialOf(2, 1, 2, 1, 1);
      assert DecimalString(2) == "2";
    } else if n == 3 {
      BinomialOf(3, 1, 6, 1, 2);
      BinomialOf(3, 2, 6, 2, 1);
      assert DecimalString(3) == "3";
    } else if n == 4 {
      BinomialOf(4, 1, 24, 1, 6);
      BinomialOf(4, 2, 24, 2, 2);
      BinomialOf(4, 3, 24, 6, 1);
      assert DecimalString(4) == "4" && DecimalString(6) == "6";
    }
  }

  lemma BinomialOf(n: int, k: int, whole: int, left: int, right: int)
    requires Fact(n) == whole && Fact(k) == left && Fact(n - k) == right
    ensures Binomial(n, k) == whole / (left * right)
  {
  }
}
