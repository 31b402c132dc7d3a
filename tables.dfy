/** `fix_markdown_tables` and `fix_table`: every maximal run of lines that
    hold a `|` (and do not open a code fence) is treated as one Markdown
    table and rewritten so that every row is `| c1 | c2 | ... |` with the
    same number of cells, with a separator row after the header. */
module Tables {
  import opened Strings

  // ------------------------------------------------------------ cells

  /** The text between the pipes of a row: `row.strip("|").split("|")`. */
  function Pieces(row: string): (r: seq<string>)
    ensures |r| >= 1
  {
    Split(StripChar(row, '|'), '|')
  }

  /** `len(row.strip("|").split("|"))`. */
  function ColCount(row: string): nat {
    |Pieces(row)|
  }

  /** `[col.strip() for col in row.strip("|").split("|")]`. */
  function Cells(row: string): (r: seq<string>)
    ensures |r| == ColCount(row)
  {
    seq(|Pieces(row)|, k requires 0 <= k < |Pieces(row)| => Strip(Pieces(row)[k]))
  }

  /** A cell as a row holds it: no pipe, no whitespace at either end. */
  predicate Clean(c: string) {
    '|' !in c && (c == [] || (!IsSpace(c[0]) && !IsSpace(c[|c| - 1])))
  }

  /** `"| " + " | ".join(cells) + " |"`. */
  function RenderRow(cells: seq<string>): string {
    "| " + Join(" | ", cells) + " |"
  }

  /** The cells of a row are clean. */
  lemma CellsClean(row: string)
    ensures forall k | 0 <= k < |Cells(row)| :: Clean(Cells(row)[k])
  {
    forall k | 0 <= k < |Cells(row)| ensures Clean(Cells(row)[k]) {
      var p := Pieces(row)[k];
      assert Cells(row)[k] == p[StripStart(p)..StripEnd(p)];
      assert forall j | 0 <= j < |Cells(row)[k]| :: Cells(row)[k][j] == p[StripStart(p) + j];
    }
  }

  /** Every cell framed by one space on each side. */
  function Padded(cells: seq<string>): (r: seq<string>)
    ensures |r| == |cells|
  {
    seq(|cells|, k requires 0 <= k < |cells| => " " + cells[k] + " ")
  }

  lemma {:induction false} JoinPadded(cells: seq<string>)
    requires |cells| >= 1
    ensures " " + Join(" | ", cells) + " " == Join("|", Padded(cells))
  {
    if |cells| > 1 {
      JoinPadded(cells[1..]);
      assert Padded(cells)[1..] == Padded(cells[1..]);
      var rest := Join(" | ", cells[1..]);
      assert " " + Join(" | ", cells) + " " == (" " + cells[0] + " ") + "|" + (" " + rest + " ");
    }
  }

  /** Reading back the cells of a rendered row gives the cells: a row is
      rendered with exactly as many cells as it was given. */
  lemma CellsOfRender(cells: seq<string>)
    requires |cells| >= 1
    requires forall k | 0 <= k < |cells| :: Clean(cells[k])
    ensures Cells(RenderRow(cells)) == cells
  {
    var inner := " " + Join(" | ", cells) + " ";
    assert RenderRow(cells) == ['|'] + inner + ['|'];
    StripCharFramed(inner, '|');
    JoinPadded(cells);
    var pads := Padded(cells);
    forall k | 0 <= k < |pads| ensures '|' !in pads[k] {
      assert pads[k] == " " + cells[k] + " ";
    }
    SplitJoin(pads, '|');
    assert Pieces(RenderRow(cells)) == pads;
    forall k | 0 <= k < |cells| ensures Cells(RenderRow(cells))[k] == cells[k] {
      StripFramed(" ", cells[k], " ");
    }
  }

  /** A rendered row starts with `| ` and ends with ` |`. */
  lemma RenderShape(cells: seq<string>)
    ensures StartsWith(RenderRow(cells), "| ") && EndsWith(RenderRow(cells), " |")
  {
    var row := RenderRow(cells);
    assert row[..2] == "| ";
    assert row[|row| - 2..] == " |";
  }

  // ------------------------------------------------------------ the separator row

  /** `\s*:*-+:*\s*` matched against the whole of `c`: whitespace,
      colons, at least one dash, colons and whitespace. The classes do not
      overlap, so each run takes all it can. */
  predicate DashCell(c: string) {
    var a := SpaceRun(c, 0);
    var b := a + CharRun(c, a, ':');
    var d := CharRun(c, b, '-');
    var e := b + d + CharRun(c, b + d, ':');
    d > 0 && e + SpaceRun(c, e) == |c|
  }

  /** Some text among `parts` is a dash cell. */
  predicate SomeDashCell(parts: seq<string>) {
    parts != [] && (DashCell(parts[0]) || SomeDashCell(parts[1..]))
  }

  /** `re.search(r"\|\s*[:]*[-]+[:]*\s*\|", row)`: the cell pattern holds
      no pipe, so a match is the whole text between two consecutive pipes,
      that is one of the pieces of `row.split("|")` but the first and the
      last. */
  predicate DashCellBetweenPipes(row: string) {
    var parts := Split(row, '|');
    |parts| >= 3 && SomeDashCell(parts[1..|parts| - 1])
  }

  /** The test for the separator row: `"-" in row and re.search(...)`. */
  predicate IsSeparatorRow(row: string) {
    '-' in row && DashCellBetweenPipes(row)
  }

  /** `re.match(r"^:?-+:?$", c)`: an alignment marker such as `---`,
      `:---`, `---:` or `:---:`. */
  predicate AlignCell(c: string) {
    var a := if |c| > 0 && c[0] == ':' then 1 else 0;
    var d := CharRun(c, a, '-');
    d > 0 && (a + d == |c| || (a + d + 1 == |c| && c[a + d] == ':'))
  }

  /** An alignment marker is a clean cell. */
  lemma AlignCellClean(c: string)
    requires AlignCell(c)
    ensures Clean(c)
  {
    var a := if |c| > 0 && c[0] == ':' then 1 else 0;
    CharRunChars(c, a, '-');
  }

  /** The first row after the first one that is a separator row, searching
      from `i`, or -1. */
  function SeparatorFrom(rows: seq<string>, i: nat): (r: int)
    requires 1 <= i
    ensures r == -1 || (i <= r < |rows| && IsSeparatorRow(rows[r]))
    ensures r == -1 ==> forall k | i <= k < |rows| :: !IsSeparatorRow(rows[k])
    ensures r >= 0 ==> forall k | i <= k < r :: !IsSeparatorRow(rows[k])
    decreases |rows| - i
  {
    if i >= |rows| then -1
    else if IsSeparatorRow(rows[i]) then i
    else SeparatorFrom(rows, i + 1)
  }

  function FirstSeparator(rows: seq<string>): int {
    SeparatorFrom(rows, 1)
  }

  /** `n` cells all holding `cell`. */
  function Repeated(cell: string, n: nat): (r: seq<string>)
    ensures |r| == n
    ensures forall j | 0 <= j < n :: r[j] == cell
  {
    seq(n, _ => cell)
  }

  /** The separator row's cells: a cell that is an alignment marker is
      kept, any other cell, or a missing one, becomes `---`. */
  function SeparatorCells(cols: seq<string>, n: nat): (r: seq<string>)
    ensures |r| == n
  {
    seq(n, j requires 0 <= j < n => if j < |cols| && AlignCell(cols[j]) then cols[j] else "---")
  }

  /** A data row's cells, padded with empty cells or truncated to `n`. */
  function Fit(cols: seq<string>, n: nat): (r: seq<string>)
    ensures |r| == n
    ensures forall j | 0 <= j < n :: r[j] == if j < |cols| then cols[j] else ""
  {
    if |cols| < n then cols + Repeated("", n - |cols|) else cols[..n]
  }

  // ------------------------------------------------------------ fix_table

  /** `[row.strip() for row in table_lines if row.strip()]`. */
  function NonBlankRows(lines: seq<string>): (r: seq<string>)
    ensures |r| <= |lines|
  {
    if lines == [] then []
    else NonBlankRows(lines[..|lines| - 1]) + (if Strip(lines[|lines| - 1]) != [] then [Strip(lines[|lines| - 1])] else [])
  }

  /** No row survives exactly when every line is blank. */
  lemma {:induction false} NonBlankRowsEmpty(lines: seq<string>)
    ensures NonBlankRows(lines) == [] <==> forall k | 0 <= k < |lines| :: IsBlank(lines[k])
  {
    if lines != [] {
      var init, last := lines[..|lines| - 1], lines[|lines| - 1];
      NonBlankRowsEmpty(init);
      assert forall k | 0 <= k < |init| :: init[k] == lines[k];
      assert Strip(last) == [] <==> IsBlank(last);
      assert NonBlankRows(lines) == [] <==> NonBlankRows(init) == [] && Strip(last) == [];
    }
  }

  /** A row given a pipe at each end where it lacks one. */
  function Piped(row: string): (r: string)
    ensures StartsWith(r, "|") && EndsWith(r, "|")
  {
    var a := if StartsWith(row, "|") then row else "| " + row;
    assert a[..1] == "|";
    if EndsWith(a, "|") then a else
      assert (a + " |")[..1] == "|";
      a + " |"
  }

  function PipedRows(rows: seq<string>): (r: seq<string>)
    ensures |r| == |rows|
  {
    seq(|rows|, k requires 0 <= k < |rows| => Piped(rows[k]))
  }

  function Max(a: nat, b: nat): nat { if a >= b then a else b }

  /** `max_cols`: the largest column count of the rows, 0 for no row. */
  function MaxCols(rows: seq<string>): (m: nat)
    ensures forall k | 0 <= k < |rows| :: ColCount(rows[k]) <= m
    ensures rows != [] ==> m >= 1
  {
    if rows == [] then 0 else Max(MaxCols(rows[..|rows| - 1]), ColCount(rows[|rows| - 1]))
  }

  /** Some row has exactly `max_cols` columns. */
  lemma {:induction false} MaxColsAttained(rows: seq<string>) returns (k: nat)
    requires rows != []
    ensures k < |rows| && ColCount(rows[k]) == MaxCols(rows)
  {
    if |rows| == 1 || ColCount(rows[|rows| - 1]) >= MaxCols(rows[..|rows| - 1]) {
      k := |rows| - 1;
    } else {
      k := MaxColsAttained(rows[..|rows| - 1]);
    }
  }

  /** The rows of a table once stripped and given their pipes. */
  function TableRows(lines: seq<string>): seq<string> {
    PipedRows(NonBlankRows(lines))
  }

  /** The rows, with the default separator inserted after the first one
      when no row is a separator row and there are two rows or more. */
  function Arranged(rows: seq<string>, n: nat): seq<string> {
    if FirstSeparator(rows) == -1 && |rows| > 1 then rows[..1] + [RenderRow(Repeated("---", n))] + rows[1..]
    else rows
  }

  /** `separator_idx` once the separator is in place; -1 for a one-row
      table without one. */
  function SeparatorIndex(rows: seq<string>): int {
    if FirstSeparator(rows) >= 0 then FirstSeparator(rows) else if |rows| > 1 then 1 else -1
  }

  /** One output row: the separator row keeps its alignment markers, a
      data row gets exactly `n` cells. */
  function FixedRow(row: string, isSeparator: bool, n: nat): string {
    RenderRow(if isSeparator then SeparatorCells(Cells(row), n) else Fit(Cells(row), n))
  }

  /** The rows of `fix_table`'s output, once the rows are stripped and
      piped: the separator row keeps its alignment markers, every other
      row gets exactly `max_cols` cells. */
  function FixRows(rows: seq<string>): (r: seq<string>)
    ensures |r| == |Arranged(rows, MaxCols(rows))|
  {
    var n := MaxCols(rows);
    var all := Arranged(rows, n);
    var sep := SeparatorIndex(rows);
    seq(|all|, i requires 0 <= i < |all| => FixedRow(all[i], i == sep, n))
  }

  /** What `fix_table` returns. */
  function FixedTable(lines: seq<string>): seq<string> {
    if NonBlankRows(lines) == [] then lines else FixRows(TableRows(lines))
  }

  // ------------------------------------------------------------ what fix_table promises

  /** A table of blank lines is returned as it is. */
  lemma BlankTableUnchanged(lines: seq<string>)
    requires forall k | 0 <= k < |lines| :: IsBlank(lines[k])
    ensures FixedTable(lines) == lines
  {
    NonBlankRowsEmpty(lines);
  }

  /** The output has a row per row, and one more when the default
      separator is inserted. */
  lemma FixRowsLength(rows: seq<string>)
    ensures |FixRows(rows)| == |rows| + (if FirstSeparator(rows) == -1 && |rows| > 1 then 1 else 0)
  {
  }

  /** Output row `i` renders the cells `fix_table` computes for it. */
  lemma FixRowsAt(rows: seq<string>, i: nat)
    requires i < |FixRows(rows)|
    ensures FixRows(rows)[i] == FixedRow(Arranged(rows, MaxCols(rows))[i], i == SeparatorIndex(rows), MaxCols(rows))
  {
  }

  /** Every output row starts with `| `, ends with ` |` and has exactly
      `max_cols` cells. */
  lemma FixRowsShape(rows: seq<string>, i: nat)
    requires rows != [] && i < |FixRows(rows)|
    ensures StartsWith(FixRows(rows)[i], "| ") && EndsWith(FixRows(rows)[i], " |")
    ensures |Cells(FixRows(rows)[i])| == MaxCols(rows)
  {
    var n := MaxCols(rows);
    var row := Arranged(rows, n)[i];
    var isSep := i == SeparatorIndex(rows);
    FixRowsAt(rows, i);
    FixedRowShape(row, isSep, n);
  }

  lemma FixedRowShape(row: string, isSeparator: bool, n: nat)
    requires n >= 1
    ensures StartsWith(FixedRow(row, isSeparator, n), "| ") && EndsWith(FixedRow(row, isSeparator, n), " |")
    ensures |Cells(FixedRow(row, isSeparator, n))| == n
  {
    var cells := if isSeparator then SeparatorCells(Cells(row), n) else Fit(Cells(row), n);
    RenderShape(cells);
    CellsClean(row);
    forall j | 0 <= j < n ensures Clean(cells[j]) {
      if isSeparator && j < |Cells(row)| && AlignCell(Cells(row)[j]) {
        AlignCellClean(Cells(row)[j]);
      } else if isSeparator {
        assert cells[j] == "---";
      }
    }
    CellsOfRender(cells);
  }

  /** A data row keeps its cells, in order: the first `max_cols` of them,
      followed by empty cells when it has fewer. */
  lemma FixRowsDataRow(rows: seq<string>, i: nat, j: nat)
    requires rows != [] && i < |FixRows(rows)|
    requires i != SeparatorIndex(rows) && j < MaxCols(rows)
    ensures var row := Arranged(rows, MaxCols(rows))[i];
      |Cells(FixRows(rows)[i])| == MaxCols(rows) &&
      Cells(FixRows(rows)[i])[j] == if j < |Cells(row)| then Cells(row)[j] else ""
  {
    var n := MaxCols(rows);
    var row := Arranged(rows, n)[i];
    FixRowsAt(rows, i);
    CellsClean(row);
    CellsOfRender(Fit(Cells(row), n));
  }

  /** The separator row holds only alignment markers, and keeps those the
      row already had. */
  lemma FixRowsSeparatorRow(rows: seq<string>, j: nat)
    requires rows != [] && SeparatorIndex(rows) >= 0 && j < MaxCols(rows)
    ensures var sep := SeparatorIndex(rows);
      var row := Arranged(rows, MaxCols(rows))[sep];
      && sep < |FixRows(rows)|
      && |Cells(FixRows(rows)[sep])| == MaxCols(rows)
      && AlignCell(Cells(FixRows(rows)[sep])[j])
      && (j < |Cells(row)| && AlignCell(Cells(row)[j]) ==> Cells(FixRows(rows)[sep])[j] == Cells(row)[j])
  {
    var n := MaxCols(rows);
    var sep := SeparatorIndex(rows);
    var row := Arranged(rows, n)[sep];
    FixRowsAt(rows, sep);
    SeparatorCellsRead(row, n, j);
  }

  lemma SeparatorCellsRead(row: string, n: nat, j: nat)
    requires j < n
    ensures |Cells(RenderRow(SeparatorCells(Cells(row), n)))| == n
    ensures AlignCell(Cells(RenderRow(SeparatorCells(Cells(row), n)))[j])
    ensures j < |Cells(row)| && AlignCell(Cells(row)[j]) ==> Cells(RenderRow(SeparatorCells(Cells(row), n)))[j] == Cells(row)[j]
  {
    var cells := SeparatorCells(Cells(row), n);
    SeparatorCellsAlign(Cells(row), n);
    CellsOfRender(cells);
  }

  /** Every separator cell is an alignment marker, hence clean. */
  lemma SeparatorCellsAlign(cols: seq<string>, n: nat)
    ensures forall k | 0 <= k < n :: Clean(SeparatorCells(cols, n)[k]) && AlignCell(SeparatorCells(cols, n)[k])
  {
    var cells := SeparatorCells(cols, n);
    assert AlignCell("---") by {
      assert CharRun("---", 0, '-') == 3;
    }
    AlignCellClean("---");
    forall k | 0 <= k < n ensures Clean(cells[k]) && AlignCell(cells[k]) {
      if k < |cols| && AlignCell(cols[k]) {
        AlignCellClean(cols[k]);
      }
    }
  }

  /** With no separator row among two or more rows, the default one goes
      in at index 1 and the rows after the header move down by one. */
  lemma InsertedSeparator(rows: seq<string>)
    requires FirstSeparator(rows) == -1 && |rows| > 1
    ensures SeparatorIndex(rows) == 1
    ensures Arranged(rows, MaxCols(rows))[0] == rows[0]
    ensures Arranged(rows, MaxCols(rows))[1] == RenderRow(Repeated("---", MaxCols(rows)))
    ensures forall k | 1 <= k < |rows| :: Arranged(rows, MaxCols(rows))[k + 1] == rows[k]
  {
    var n := MaxCols(rows);
    InsertAfterFirst(rows, RenderRow(Repeated("---", n)));
  }

  lemma InsertAfterFirst<T>(xs: seq<T>, x: T)
    requires |xs| > 1
    ensures var a := xs[..1] + [x] + xs[1..];
      a[0] == xs[0] && a[1] == x && forall k | 1 <= k < |xs| :: a[k + 1] == xs[k]
  {
    var a := xs[..1] + [x] + xs[1..];
    forall k | 1 <= k < |xs| ensures a[k + 1] == xs[k] {
      assert a[k + 1] == xs[1..][k - 1];
    }
  }

  /** A separator row already there stays where it is, and nothing is
      inserted. */
  lemma ExistingSeparator(rows: seq<string>)
    requires FirstSeparator(rows) >= 0
    ensures Arranged(rows, MaxCols(rows)) == rows
    ensures 1 <= SeparatorIndex(rows) < |rows| && IsSeparatorRow(rows[SeparatorIndex(rows)])
  {
  }

  /** `fix_table` on a table with a non-blank line is `FixRows` of its
      stripped, piped rows, and these are as many as the non-blank lines. */
  lemma FixedTableRows(lines: seq<string>)
    requires exists k | 0 <= k < |lines| :: !IsBlank(lines[k])
    ensures TableRows(lines) != []
    ensures FixedTable(lines) == FixRows(TableRows(lines))
  {
    NonBlankRowsEmpty(lines);
  }

  // ------------------------------------------------------------ fix_table, step by step

  /** The loop that builds the separator row's cells. */
  method SeparatorRowCells(cols: seq<string>, maxCols: nat) returns (separators: seq<string>)
    ensures separators == SeparatorCells(cols, maxCols)
  {
    separators := [];
    for j := 0 to maxCols
      invariant |separators| == j
      invariant forall k | 0 <= k < j :: separators[k] == SeparatorCells(cols, maxCols)[k]
    {
      if j < |cols| && AlignCell(cols[j]) {
        separators := separators + [cols[j]];
      } else {
        separators := separators + ["---"];
      }
    }
  }

  /** `while len(cols) < max_cols: cols.append("")` then `cols[:max_cols]`. */
  method PadCells(cols: seq<string>, maxCols: nat) returns (r: seq<string>)
    ensures r == Fit(cols, maxCols)
  {
    r := cols;
    while |r| < maxCols
      invariant |cols| <= |r|
      invariant r[..|cols|] == cols
      invariant forall k | |cols| <= k < |r| :: r[k] == ""
      invariant |r| > |cols| ==> |r| <= maxCols
      decreases maxCols - |r|
    {
      r := r + [""];
    }
    r := r[..maxCols];
  }

  /** The loop giving every row its pipes, `rows[i]` updated in place. */
  method PipeRows(stripped: seq<string>) returns (rows: seq<string>)
    ensures rows == PipedRows(stripped)
  {
    rows := stripped;
    for i := 0 to |rows|
      invariant |rows| == |stripped|
      invariant forall k | 0 <= k < i :: rows[k] == Piped(stripped[k])
      invariant forall k | i <= k < |rows| :: rows[k] == stripped[k]
    {
      if !StartsWith(rows[i], "|") {
        rows := rows[i := "| " + rows[i]];
      }
      if !EndsWith(rows[i], "|") {
        rows := rows[i := rows[i] + " |"];
      }
    }
  }

  /** The loop computing `max_cols`. */
  method CountColumns(rows: seq<string>) returns (maxCols: nat)
    ensures maxCols == MaxCols(rows)
  {
    maxCols := 0;
    for i := 0 to |rows|
      invariant maxCols == MaxCols(rows[..i])
    {
      assert rows[..i + 1][..i] == rows[..i];
      maxCols := Max(maxCols, ColCount(rows[i]));
    }
    assert rows[..|rows|] == rows;
  }

  /** The loop looking for the separator row, then the insertion of the
      default one. */
  method PlaceSeparator(rows: seq<string>, maxCols: nat) returns (arranged: seq<string>, separatorIdx: int)
    ensures arranged == Arranged(rows, maxCols)
    ensures separatorIdx == SeparatorIndex(rows)
  {
    var hasSeparator := false;
    separatorIdx := -1;
    var i := 0;
    while i < |rows| && !hasSeparator
      invariant 0 <= i <= |rows|
      invariant !hasSeparator ==> separatorIdx == -1 && forall k | 1 <= k < i :: !IsSeparatorRow(rows[k])
      invariant hasSeparator ==> 1 <= separatorIdx && separatorIdx == FirstSeparator(rows)
    {
      if i > 0 && IsSeparatorRow(rows[i]) {
        hasSeparator := true;
        separatorIdx := i;
      }
      i := i + 1;
    }
    arranged := rows;
    if !hasSeparator && |rows| > 1 {
      var separator := RenderRow(Repeated("---", maxCols));
      arranged := rows[..1] + [separator] + rows[1..];
      separatorIdx := 1;
    }
  }

  /** The loop rendering every row. */
  method RenderRows(rows: seq<string>, separatorIdx: int, maxCols: nat) returns (fixedRows: seq<string>)
    ensures |fixedRows| == |rows|
    ensures forall k | 0 <= k < |rows| :: fixedRows[k] == FixedRow(rows[k], k == separatorIdx, maxCols)
  {
    fixedRows := [];
    for i := 0 to |rows|
      invariant |fixedRows| == i
      invariant forall k | 0 <= k < i :: fixedRows[k] == FixedRow(rows[k], k == separatorIdx, maxCols)
    {
      var cols := Cells(rows[i]);
      if i == separatorIdx {
        var separators := SeparatorRowCells(cols, maxCols);
        fixedRows := fixedRows + [RenderRow(separators)];
      } else {
        cols := PadCells(cols, maxCols);
        fixedRows := fixedRows + [RenderRow(cols)];
      }
    }
  }

  /** `fix_table`. */
  method FixTable(tableLines: seq<string>) returns (fixedRows: seq<string>)
    ensures fixedRows == FixedTable(tableLines)
  {
    var rows := NonBlankRows(tableLines);
    if rows == [] {
      return tableLines;
    }
    rows := PipeRows(rows);
    var maxCols := CountColumns(rows);
    var arranged, separatorIdx := PlaceSeparator(rows, maxCols);
    fixedRows := RenderRows(arranged, separatorIdx, maxCols);
    assert fixedRows == FixRows(rows);
  }

  // ------------------------------------------------------------ fix_markdown_tables

  /** `line.strip().startswith("```")`: after its leading whitespace the
      line starts with three backquotes. */
  predicate OpensFence(line: string) {
    if |line| > 0 && IsSpace(line[0]) then OpensFence(line[1..]) else StartsWith(line, "```")
  }

  lemma {:induction false} OpensFenceStrip(line: string)
    ensures OpensFence(line) <==> StartsWith(Strip(line), "```")
  {
    if |line| > 0 && IsSpace(line[0]) {
      OpensFenceStrip(line[1..]);
      StripSkipsSpace(line);
    } else {
      var r := Strip(line);
      assert StripStart(line) == 0;
      if StartsWith(line, "```") {
        assert !IsSpace(line[2]);
        assert StripEnd(line) >= 3;
      }
      if |r| >= 3 {
        assert r[..3] == line[..3];
      }
    }
  }

  /** Stripping ignores a leading whitespace character. */
  lemma StripSkipsSpace(line: string)
    requires |line| > 0 && IsSpace(line[0])
    ensures Strip(line) == Strip(line[1..])
  {
    var s := line[1..];
    assert LeadingSpaces(line) == 1 + LeadingSpaces(s);
    assert line[LeadingSpaces(line)..] == s[LeadingSpaces(s)..];
  }

  /** A line that belongs to a table: `"|" in line and not
      line.strip().startswith("```")`. */
  predicate IsTableLine(line: string) {
    '|' in line && !OpensFence(line)
  }

  /** Every line is a table line. */
  predicate AllTableLines(lines: seq<string>) {
    forall k | 0 <= k < |lines| :: IsTableLine(lines[k])
  }

  /** The output lines for `lines`, when the table lines collected so far
      are `current` and `fix` fixes a table: a non-table line ends the
      table, which is fixed and emitted before it; a table still open at
      the end is fixed too. */
  function FixFrom(lines: seq<string>, current: seq<string>, fix: seq<string> -> seq<string>): seq<string>
  {
    if lines == [] then (if current != [] then fix(current) else [])
    else if IsTableLine(lines[0]) then FixFrom(lines[1..], current + [lines[0]], fix)
    else (if current != [] then fix(current) else []) + [lines[0]] + FixFrom(lines[1..], [], fix)
  }

  /** The lines `fix_markdown_tables` produces. */
  function FixLines(lines: seq<string>): seq<string> {
    FixFrom(lines, [], FixedTable)
  }

  /** What `fix_markdown_tables` returns. */
  function FixedMarkdown(text: string): string {
    Join("\n", FixLines(Split(text, '\n')))
  }

  /** One step of the scan. */
  lemma FixFromStep(lines: seq<string>, i: nat, current: seq<string>, fix: seq<string> -> seq<string>)
    requires i < |lines|
    ensures IsTableLine(lines[i]) ==> FixFrom(lines[i..], current, fix) == FixFrom(lines[i + 1..], current + [lines[i]], fix)
    ensures !IsTableLine(lines[i]) ==>
      FixFrom(lines[i..], current, fix) == (if current != [] then fix(current) else []) + [lines[i]] + FixFrom(lines[i + 1..], [], fix)
  {
    assert lines[i..][0] == lines[i];
    assert lines[i..][1..] == lines[i + 1..];
  }

  /** A non-table line closes the open table, if any, and is copied. */
  lemma ScanPlainLine(lines: seq<string>, i: nat, result: seq<string>, current: seq<string>, fix: seq<string> -> seq<string>)
    requires i < |lines| && !IsTableLine(lines[i])
    ensures result + FixFrom(lines[i..], current, fix)
         == (result + (if current != [] then fix(current) else []) + [lines[i]]) + FixFrom(lines[i + 1..], [], fix)
  {
    FixFromStep(lines, i, current, fix);
    var closed := if current != [] then fix(current) else [];
    AppendAssoc(result, closed + [lines[i]], FixFrom(lines[i + 1..], [], fix));
    AppendAssoc(result, closed, [lines[i]]);
  }

  /** At the end of the text the open table, if any, is fixed. */
  lemma ScanEnd(lines: seq<string>, result: seq<string>, current: seq<string>, fix: seq<string> -> seq<string>)
    ensures result + FixFrom(lines[|lines|..], current, fix) == result + (if current != [] then fix(current) else [])
  {
    assert lines[|lines|..] == [];
  }

  /** `fix_markdown_tables`. */
  method FixMarkdownTables(markdownText: string) returns (r: string)
    ensures r == FixedMarkdown(markdownText)
  {
    var lines := Split(markdownText, '\n');
    ghost var fix: seq<string> -> seq<string> := FixedTable;
    var inTable := false;
    var currentTable: seq<string> := [];
    var result: seq<string> := [];
    for i := 0 to |lines|
      invariant inTable <==> currentTable != []
      invariant FixFrom(lines, [], fix) == result + FixFrom(lines[i..], currentTable, fix)
    {
      var line := lines[i];
      if IsTableLine(line) {
        FixFromStep(lines, i, currentTable, fix);
        if !inTable {
          inTable := true;
        }
        currentTable := currentTable + [line];
      } else {
        ScanPlainLine(lines, i, result, currentTable, fix);
        if inTable {
          var fixedTable := FixTable(currentTable);
          result := result + fixedTable;
          currentTable := [];
          inTable := false;
        }
        result := result + [line];
      }
    }
    ScanEnd(lines, result, currentTable, fix);
    if inTable {
      var fixedTable := FixTable(currentTable);
      result := result + fixedTable;
    }
    assert FixLines(lines) == result;
    r := Join("\n", result);
  }

  // ------------------------------------------------------------ what fix_markdown_tables promises

  /** A run of table lines is collected into the open table. */
  lemma {:induction false} TableRunCollected(t: seq<string>, b: seq<string>, current: seq<string>, fix: seq<string> -> seq<string>)
    requires AllTableLines(t)
    ensures FixFrom(t + b, current, fix) == FixFrom(b, current + t, fix)
  {
    if t != [] {
      assert (t + b)[0] == t[0];
      assert (t + b)[1..] == t[1..] + b;
      assert forall k | 0 <= k < |t| - 1 :: t[1..][k] == t[k + 1];
      TableRunCollected(t[1..], b, current + [t[0]], fix);
      assert current + [t[0]] + t[1..] == current + t;
    } else {
      assert t + b == b && current + t == current;
    }
  }

  /** A non-table line, or the end of the text, closes the open table. */
  lemma TableClosed(b: seq<string>, current: seq<string>, fix: seq<string> -> seq<string>)
    requires current != []
    requires b == [] || !IsTableLine(b[0])
    ensures FixFrom(b, current, fix) == fix(current) + FixFrom(b, [], fix)
  {
  }

  /** Lines up to and including a non-table line are handled on their own. */
  lemma {:induction false} SplitAfterPlainLine(a: seq<string>, x: seq<string>, current: seq<string>, fix: seq<string> -> seq<string>)
    requires a != [] && !IsTableLine(a[|a| - 1])
    ensures FixFrom(a + x, current, fix) == FixFrom(a, current, fix) + FixFrom(x, [], fix)
  {
    assert (a + x)[0] == a[0];
    assert (a + x)[1..] == a[1..] + x;
    if |a| == 1 {
      assert a[1..] == [];
      assert FixFrom(a[1..], [], fix) == [];
    } else if IsTableLine(a[0]) {
      SplitAfterPlainLine(a[1..], x, current + [a[0]], fix);
    } else {
      SplitAfterPlainLine(a[1..], x, [], fix);
    }
  }

  /** Each maximal run of table lines is replaced by `fix` of the run, and
      the lines around it are handled independently. */
  lemma MaximalRunFixedWith(a: seq<string>, t: seq<string>, b: seq<string>, fix: seq<string> -> seq<string>)
    requires a == [] || !IsTableLine(a[|a| - 1])
    requires t != [] && AllTableLines(t)
    requires b == [] || !IsTableLine(b[0])
    ensures FixFrom(a + t + b, [], fix) == FixFrom(a, [], fix) + fix(t) + FixFrom(b, [], fix)
  {
    TableRunCollected(t, b, [], fix);
    assert [] + t == t;
    TableClosed(b, t, fix);
    var rest := FixFrom(t + b, [], fix);
    assert rest == fix(t) + FixFrom(b, [], fix);
    if a == [] {
      assert a + t + b == t + b;
      assert FixFrom(a, [], fix) == [];
    } else {
      assert a + t + b == a + (t + b);
      SplitAfterPlainLine(a, t + b, [], fix);
    }
    AppendAssoc(FixFrom(a, [], fix), fix(t), FixFrom(b, [], fix));
  }

  /** Each maximal run of table lines is replaced by `fix_table` of the
      run, and the lines around it are handled independently. */
  lemma MaximalRunFixed(a: seq<string>, t: seq<string>, b: seq<string>)
    requires a == [] || !IsTableLine(a[|a| - 1])
    requires t != [] && AllTableLines(t)
    requires b == [] || !IsTableLine(b[0])
    ensures FixLines(a + t + b) == FixLines(a) + FixedTable(t) + FixLines(b)
  {
    MaximalRunFixedWith(a, t, b, FixedTable);
  }

  /** The lines that are not table lines, in order. */
  function PlainLines(lines: seq<string>): seq<string> {
    if lines == [] then []
    else (if IsTableLine(lines[0]) then [] else [lines[0]]) + PlainLines(lines[1..])
  }

  lemma {:induction false} PlainLinesAppend(a: seq<string>, b: seq<string>)
    ensures PlainLines(a + b) == PlainLines(a) + PlainLines(b)
  {
    if a != [] {
      assert (a + b)[0] == a[0];
      assert (a + b)[1..] == a[1..] + b;
      PlainLinesAppend(a[1..], b);
      var head := if IsTableLine(a[0]) then [] else [a[0]];
      AppendAssoc(head, PlainLines(a[1..]), PlainLines(b));
    } else {
      assert a + b == b;
    }
  }

  lemma {:induction false} NoPlainLines(lines: seq<string>)
    requires AllTableLines(lines)
    ensures PlainLines(lines) == []
  {
    if lines != [] {
      NoPlainLines(lines[1..]);
    }
  }

  /** A rendered row is itself a table line. */
  lemma RenderedIsTableLine(cells: seq<string>)
    ensures IsTableLine(RenderRow(cells))
  {
    var row := RenderRow(cells);
    assert row[0] == '|';
  }

  /** `fix_table` turns a run of table lines into table lines only. */
  lemma FixedTableAllTableLines(t: seq<string>)
    requires t != [] && AllTableLines(t)
    ensures PlainLines(FixedTable(t)) == []
  {
    NonBlankRowsEmpty(t);
    assert !IsBlank(t[0]);
    var rows := TableRows(t);
    var out := FixRows(rows);
    forall i | 0 <= i < |out| ensures IsTableLine(out[i]) {
      var n := MaxCols(rows);
      var row := Arranged(rows, n)[i];
      FixRowsAt(rows, i);
      RenderedIsTableLine(if i == SeparatorIndex(rows) then SeparatorCells(Cells(row), n) else Fit(Cells(row), n));
    }
    NoPlainLines(out);
  }

  /** A fix that turns every run of table lines into table lines only. */
  ghost predicate KeepsTableLines(fix: seq<string> -> seq<string>) {
    forall t | t != [] && AllTableLines(t) :: PlainLines(fix(t)) == []
  }

  lemma {:induction false} PlainLinesKeptWith(lines: seq<string>, current: seq<string>, fix: seq<string> -> seq<string>)
    requires KeepsTableLines(fix)
    requires AllTableLines(current)
    ensures PlainLines(FixFrom(lines, current, fix)) == PlainLines(lines)
  {
    var closed := if current != [] then fix(current) else [];
    assert PlainLines(closed) == [] by {
      if current != [] {
        assert PlainLines(fix(current)) == [];
      }
    }
    if lines == [] {
    } else if IsTableLine(lines[0]) {
      PlainLinesKeptWith(lines[1..], current + [lines[0]], fix);
    } else {
      var rest := FixFrom(lines[1..], [], fix);
      assert FixFrom(lines, current, fix) == closed + [lines[0]] + rest;
      PlainLinesKeptWith(lines[1..], [], fix);
      PlainLinesAppend(closed + [lines[0]], rest);
      PlainLinesAppend(closed, [lines[0]]);
      assert PlainLines([lines[0]]) == [lines[0]];
      assert PlainLines(lines) == [lines[0]] + PlainLines(lines[1..]);
    }
  }

  /** Every line outside the tables is copied unchanged and in order. */
  lemma PlainLinesKept(lines: seq<string>)
    ensures PlainLines(FixLines(lines)) == PlainLines(lines)
  {
    forall t | t != [] && AllTableLines(t) ensures PlainLines(FixedTable(t)) == [] {
      FixedTableAllTableLines(t);
    }
    PlainLinesKeptWith(lines, [], FixedTable);
  }

  lemma {:induction false} PlainUnchanged(lines: seq<string>, fix: seq<string> -> seq<string>)
    requires forall k | 0 <= k < |lines| :: !IsTableLine(lines[k])
    ensures FixFrom(lines, [], fix) == lines
  {
    if lines != [] {
      PlainUnchanged(lines[1..], fix);
    }
  }

  /** A text without table lines is returned unchanged. */
  lemma NoTablesUnchanged(text: string)
    requires forall k | 0 <= k < |Split(text, '\n')| :: !IsTableLine(Split(text, '\n')[k])
    ensures FixedMarkdown(text) == text
  {
    PlainUnchanged(Split(text, '\n'), FixedTable);
    JoinSplit(text, '\n');
  }
}
