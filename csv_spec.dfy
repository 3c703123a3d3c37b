/** The CSV-to-box-table conversion as a pipeline of functions: classify a
    value, cut the document into rows and the rows into trimmed cells, measure
    the columns, and lay the table out line by line. These are the reference
    definitions that the imperative converter in CsvProcessor is proved to
    compute, and the lemmas below state what the format promises about them. */
module CsvSpec {
  import opened Text

  /** The glyph written between two cells of a row (U+2502, a light vertical
      box-drawing bar); the row's outer edges use the ASCII `|`. */
  const ColumnBar: char := '\U{2502}'

  /** Inputs longer than this many bytes are refused with a read error. */
  const MaxFileSize: nat := 100 * 1024 * 1024

  // ---------------------------------------------------------------------------
  // Classifier

  /** A value is numeric when it is non-empty, consists of ASCII digits and
      dots only, and has at most one dot. */
  predicate Numeric(s: string) {
    && |s| > 0
    && (forall k :: 0 <= k < |s| ==> IsDigit(s[k]) || s[k] == '.')
    && Count(s, '.') <= 1
  }

  /** The classifier on the values the source exercises, and on a lone dot,
      which counts as numeric. */
  lemma NumericExamples()
    ensures Numeric("123") && Numeric("123.45") && Numeric(".")
    ensures !Numeric("abc") && !Numeric("") && !Numeric("12.34.56") && !Numeric("-5")
  {
    assert !IsDigit('a') && !IsDigit('-');
    assert "12.34.56"[..7] == "12.34.5" && "12.34.5"[..6] == "12.34." && "12.34."[..5] == "12.34";
    assert "12.34"[..4] == "12.3" && "12.3"[..3] == "12." && "12."[..2] == "12";
    assert "12"[..1] == "1" && "1"[..0] == "";
    assert "123.45"[..5] == "123.4" && "123.4"[..4] == "123." && "123."[..3] == "123";
    assert "123"[..2] == "12";
    assert "."[..0] == "";
  }

  /** `countCommas` on the inputs the source exercises. */
  lemma CountCommasExamples()
    ensures Count("", ',') == 0 && Count("a,b,c", ',') == 2
    ensures Count("a,,c", ',') == 2 && Count(",,,", ',') == 3
  {
    assert "a,b,c"[..4] == "a,b," && "a,b,"[..3] == "a,b" && "a,b"[..2] == "a,";
    assert "a,"[..1] == "a" && "a"[..0] == "";
    assert "a,,c"[..3] == "a,," && "a,,"[..2] == "a,";
    assert ",,,"[..2] == ",," && ",,"[..1] == "," && ","[..0] == "";
  }

  // ---------------------------------------------------------------------------
  // Rows

  /** The rows of a document: the text before its first NUL cut at every
      newline, with the empty pieces (blank lines, leading and trailing
      newlines) dropped. */
  function Rows(input: string): (rows: seq<string>)
    ensures forall r :: 0 <= r < |rows| ==> rows[r] != ""
  {
    RowsFrom(input, 0)
  }

  /** The rows of the C string that starts at index `pos` of the buffer. */
  function RowsFrom(buf: string, pos: nat): seq<string>
    requires pos <= |buf|
  {
    NonEmpty(Split(CStr(buf, pos), '\n'))
  }

  /** A newline before any text contributes no row. */
  lemma RowsFromSkip(buf: string, p: nat)
    requires p < |buf| && buf[p] == '\n'
    ensures RowsFrom(buf, p) == RowsFrom(buf, p + 1)
  {
    var rest := CStr(buf, p + 1);
    assert CStr(buf, p) == "" + ['\n'] + rest;
    SplitFront("", rest, '\n');
    assert ([""] + Split(rest, '\n'))[1..] == Split(rest, '\n');
  }

  /** At a NUL or at the end of the buffer no rows remain. */
  lemma RowsFromEnd(buf: string, p: nat)
    requires p <= |buf| && (p == |buf| || buf[p] == NUL)
    ensures RowsFrom(buf, p) == []
  {
    assert CStr(buf, p) == "";
  }

  /** A non-empty stretch without newline or NUL, ended by a newline, a NUL
      or the end of the buffer, is the next row; the rows after it start
      past the newline. */
  lemma RowsFromToken(buf: string, p: nat, q: nat)
    requires p < q <= |buf|
    requires forall k :: p <= k < q ==> buf[k] != '\n' && buf[k] != NUL
    requires q == |buf| || buf[q] == '\n' || buf[q] == NUL
    ensures RowsFrom(buf, p) == [buf[p..q]] + RowsFrom(buf, if q < |buf| && buf[q] == '\n' then q + 1 else q)
  {
    var line := buf[p..q];
    CStrConcat(buf, p, q);
    assert '\n' !in line;
    if q < |buf| && buf[q] == '\n' {
      var rest := CStr(buf, q + 1);
      assert CStr(buf, p) == line + ['\n'] + rest;
      SplitFront(line, rest, '\n');
      assert ([line] + Split(rest, '\n'))[1..] == Split(rest, '\n');
    } else {
      assert CStr(buf, q) == "";
      assert CStr(buf, p) == line;
      SplitNoDelimiter(line, '\n');
      assert [line][1..] == [];
      assert CStr(buf, q) == "";
    }
  }

  /** The terminating NUL the reader appends after the file's bytes does
      not change the rows. */
  lemma RowsTerminated(input: string)
    ensures Rows(input + [NUL]) == Rows(input)
  {
    var a := input + [NUL];
    var s := CStr(input, 0);
    assert a[0..|s|] == s;
    CStrUpTo(a, 0, |s|);
  }

  /** Every row is a non-empty stretch of the text without newline or NUL. */
  lemma RowsAreLines(input: string)
    ensures forall r :: 0 <= r < |Rows(input)| ==>
              Rows(input)[r] != "" && '\n' !in Rows(input)[r] && NUL !in Rows(input)[r]
  {
    var text := CStr(input, 0);
    SplitPiecesFree(text, '\n');
    SplitPiecesFrom(text, '\n');
    forall r | 0 <= r < |Rows(input)|
      ensures '\n' !in Rows(input)[r] && NUL !in Rows(input)[r]
    {
      var i :| 0 <= i < |Split(text, '\n')| && Split(text, '\n')[i] == Rows(input)[r];
    }
  }

  /** A file of nothing but newlines has no rows. */
  lemma RowsOfNewlines(input: string)
    requires forall k :: 0 <= k < |input| ==> input[k] == '\n'
    ensures Rows(input) == []
  {
    var p := |input|;
    RowsFromEnd(input, p);
    while p > 0
      invariant 0 <= p <= |input| && RowsFrom(input, p) == []
    {
      p := p - 1;
      RowsFromSkip(input, p);
    }
  }

  /** Blank input yields no rows. */
  lemma RowsOfBlankInput()
    ensures Rows("") == [] && Rows("\n\n") == []
  {
    CStrUpTo("\n\n", 0, 2);
    assert "\n\n" == "" + ['\n'] + "\n";
    SplitFront("", "\n", '\n');
    assert "\n" == "" + ['\n'] + "";
    SplitFront("", "", '\n');
  }

  /** The rows of newline-joined pieces are the non-empty pieces: a row is
      a maximal non-empty newline-free stretch. */
  lemma RowsOfJoin(ps: seq<string>)
    requires |ps| >= 1
    requires forall i :: 0 <= i < |ps| ==> '\n' !in ps[i] && NUL !in ps[i]
    ensures Rows(Join(ps, '\n')) == NonEmpty(ps)
  {
    var s := Join(ps, '\n');
    if NUL in s {
      JoinFrom(ps, '\n', NUL);
    }
    CStrUpTo(s, 0, |s|);
    assert s[0..|s|] == s;
    SplitJoin(ps, '\n');
  }

  /** Reading back a file of non-empty lines gives those lines as rows. */
  lemma RowsOfLines(ls: seq<string>)
    requires forall i :: 0 <= i < |ls| ==> ls[i] != "" && '\n' !in ls[i] && NUL !in ls[i]
    ensures Rows(Unlines(ls)) == ls
  {
    UnlinesIsJoin(ls);
    RowsOfJoin(ls + [""]);
    NonEmptyAppend(ls, [""]);
    NonEmptyKeeps(ls);
  }

  /** Leading newlines and blank lines produce no rows. */
  lemma RowsSkipBlankLines()
    ensures Rows("\na\n\nb") == ["a", "b"]
  {
    var ps := ["", "a", "", "b"];
    BlankLinesText();
    RowsOfJoin(ps);
    assert ps[1..] == ["a", "", "b"] && ps[2..] == ["", "b"] && ps[3..] == ["b"];
    assert NonEmpty(["b"]) == ["b"] by { assert ["b"][1..] == []; }
    assert NonEmpty(ps[2..]) == ["b"];
    assert NonEmpty(ps[1..]) == ["a", "b"];
  }

  lemma BlankLinesText()
    ensures Join(["", "a", "", "b"], '\n') == "\na\n\nb"
  {
    var ps := ["", "a", "", "b"];
    assert ps[..1] == [""];
    JoinPrefix(ps, 1, '\n');
    assert Join(ps[..2], '\n') == "\na";
    JoinPrefix(ps, 2, '\n');
    assert Join(ps[..3], '\n') == "\na\n";
    JoinPrefix(ps, 3, '\n');
    assert ps[..4] == ps;
  }

  /** The rows of a three-line document ending in a newline. */
  lemma RowsOfSample()
    ensures Rows("name,age\nAlice,30\nBob,7\n") == ["name,age", "Alice,30", "Bob,7"]
  {
    var ls := ["name,age", "Alice,30", "Bob,7"];
    SampleText();
    RowsOfLines(ls);
  }

  /** The sample document as a table: two columns, the cells as written,
      and widths 5 and 3 (the longest name and the header `age`). */
  lemma SampleTable()
    ensures var rows := Rows("name,age\nAlice,30\nBob,7\n");
            && MaxColumns(rows) == 2
            && TableOf(rows, 2) == [["name", "age"], ["Alice", "30"], ["Bob", "7"]]
            && Widths(TableOf(rows, 2), 2) == [5, 3]
  {
    RowsOfSample();
    SampleLayout();
    SampleWidths();
  }

  /** The sample's three lines as a two-column table. */
  lemma SampleLayout()
    ensures var rows := ["name,age", "Alice,30", "Bob,7"];
            MaxColumns(rows) == 2 && TableOf(rows, 2) == [["name", "age"], ["Alice", "30"], ["Bob", "7"]]
  {
    SampleFields();
    SampleCells("name", "age");
    SampleCells("Alice", "30");
    SampleCells("Bob", "7");
    ThreeRows("name,age", "Alice,30", "Bob,7", 2);
  }

  /** The widths of the sample's table. */
  lemma SampleWidths()
    ensures Widths([["name", "age"], ["Alice", "30"], ["Bob", "7"]], 2) == [5, 3]
  {
    var w := Widths([["name", "age"], ["Alice", "30"], ["Bob", "7"]], 2);
    ThreeRowWidths(["name", "age"], ["Alice", "30"], ["Bob", "7"], 2);
    assert w[0] == 5 && w[1] == 3;
  }

  /** The sample's lines, each as its two fields around the comma. */
  lemma SampleFields()
    ensures "name,age" == "name" + "," + "age"
    ensures "Alice,30" == "Alice" + "," + "30"
    ensures "Bob,7" == "Bob" + "," + "7"
  {
  }

  /** The column count and the table of a three-row document. */
  lemma ThreeRows(a: string, b: string, c: string, m: nat)
    ensures Count(a, ',') == Count(b, ',') == Count(c, ',') ==> MaxColumns([a, b, c]) == Count(a, ',') + 1
    ensures TableOf([a, b, c], m) == [Cells(a, m), Cells(b, m), Cells(c, m)]
  {
  }

  /** The widths of a three-row table: each is the length of one of its
      column's three cells, and no shorter than any of them. */
  lemma ThreeRowWidths(r0: seq<string>, r1: seq<string>, r2: seq<string>, m: nat)
    requires |r0| == |r1| == |r2| == m
    ensures var w := Widths([r0, r1, r2], m);
            forall c :: 0 <= c < m ==>
              && |r0[c]| <= w[c] && |r1[c]| <= w[c] && |r2[c]| <= w[c]
              && (w[c] == |r0[c]| || w[c] == |r1[c]| || w[c] == |r2[c]|)
  {
    var t := [r0, r1, r2];
    forall c | 0 <= c < m
      ensures |r0[c]| <= Widths(t, m)[c] && |r1[c]| <= Widths(t, m)[c] && |r2[c]| <= Widths(t, m)[c]
      ensures Widths(t, m)[c] == |r0[c]| || Widths(t, m)[c] == |r1[c]| || Widths(t, m)[c] == |r2[c]|
    {
      WidthsAttained(t, m, c);
      assert t[0] == r0 && t[1] == r1 && t[2] == r2;
    }
  }

  /** A two-field line whose fields hold no whitespace at either end: its
      cells are the fields. */
  lemma SampleCells(x: string, y: string)
    requires x != [] && y != [] && ',' !in x && ',' !in y
    requires !IsSpace(x[0]) && !IsSpace(x[|x| - 1]) && !IsSpace(y[0]) && !IsSpace(y[|y| - 1])
    ensures Count(x + "," + y, ',') == 1 && Cells(x + "," + y, 2) == [x, y]
  {
    var s := x + "," + y;
    assert s == x + [','] + y;
    SplitFront(x, y, ',');
    SplitNoDelimiter(y, ',');
    SplitLength(s, ',');
    TrimAt(x, 0, |x|);
    TrimAt(y, 0, |y|);
    assert x[0..|x|] == x && y[0..|y|] == y;
  }

  lemma SampleText()
    ensures Unlines(["name,age", "Alice,30", "Bob,7"]) == "name,age\nAlice,30\nBob,7\n"
  {
    var ls := ["name,age", "Alice,30", "Bob,7"];
    UnlinesSnoc([], ls[0]);
    assert [] + [ls[0]] == ls[..1];
    UnlinesSnoc(ls[..1], ls[1]);
    assert ls[..1] + [ls[1]] == ls[..2];
    assert Unlines(ls[..2]) == "name,age\nAlice,30\n";
    UnlinesSnoc(ls[..2], ls[2]);
    assert ls[..2] + [ls[2]] == ls;
  }

  /** The number of columns: the largest field count (commas plus one) over
      all rows, 0 when there are no rows. */
  function MaxColumns(rows: seq<string>): (m: nat)
    ensures forall r :: 0 <= r < |rows| ==> Count(rows[r], ',') + 1 <= m
    ensures rows == [] <==> m == 0
    ensures rows != [] ==> exists r :: 0 <= r < |rows| && m == Count(rows[r], ',') + 1
  {
    if rows == [] then 0
    else
      var m0 := MaxColumns(rows[..|rows| - 1]);
      var here := Count(rows[|rows| - 1], ',') + 1;
      if here > m0 then here else m0
  }

  // ---------------------------------------------------------------------------
  // Cells

  /** The cells of a row in a table of `m` columns: the fields between
      consecutive commas, each trimmed, followed by empty cells up to `m`. */
  function Cells(line: string, m: nat): (cells: seq<string>)
    ensures |cells| == m
  {
    var fields := Split(line, ',');
    seq(m, j requires 0 <= j < m => if j < |fields| then Trim(fields[j]) else "")
  }

  /** What a row's cells are, field by field: cell `j` is the trimmed text
      between the `j`-th and `(j+1)`-th commas (the comma-free pieces that
      rejoin into the row), and every cell past the row's own fields is
      empty. */
  lemma CellsOfRow(line: string, m: nat)
    requires Count(line, ',') + 1 <= m
    ensures |Split(line, ',')| == Count(line, ',') + 1
    ensures Join(Split(line, ','), ',') == line
    ensures forall j :: 0 <= j < |Split(line, ',')| ==> ',' !in Split(line, ',')[j]
    ensures forall j :: 0 <= j <= Count(line, ',') ==> Cells(line, m)[j] == Trim(Split(line, ',')[j])
    ensures forall j :: Count(line, ',') < j < m ==> Cells(line, m)[j] == ""
  {
    JoinSplit(line, ',');
    SplitPiecesFree(line, ',');
    SplitLength(line, ',');
  }

  /** Cells hold no character the row does not hold (so no newline). */
  lemma CellsFrom(line: string, m: nat)
    ensures forall j, x :: 0 <= j < m && x in Cells(line, m)[j] ==> x in line
  {
    SplitPiecesFrom(line, ',');
    forall j, x | 0 <= j < m && x in Cells(line, m)[j] ensures x in line {
      var fields := Split(line, ',');
      if j < |fields| {
        TrimFrom(fields[j]);
      }
    }
  }

  /** Empty interior fields are kept. */
  lemma CellsKeepEmptyFields()
    ensures Cells("a,,c", 3) == ["a", "", "c"]
  {
    assert "a,,c" == "a," + [','] + "c";
    SplitAfter("a,", "c", ',');
    assert "a," == "a" + [','] + "";
    SplitAfter("a", "", ',');
    SplitNoDelimiter("a", ',');
    assert Split("a,,c", ',') == ["a", "", "c"];
    assert Trim("a") == "a" && Trim("c") == "c";
  }

  /** Whitespace around a value is trimmed. */
  lemma CellsTrimSpaces()
    ensures Cells(" x , y ", 2) == ["x", "y"]
  {
    var ps := [" x ", " y "];
    SpacedText();
    SplitJoin(ps, ',');
    TrimSpaced();
  }

  lemma SpacedText()
    ensures Join([" x ", " y "], ',') == " x , y "
  {
  }

  lemma TrimSpaced()
    ensures Trim(" x ") == "x" && Trim(" y ") == "y"
  {
    TrimPadded('x');
    TrimPadded('y');
    assert [' ', 'x', ' '] == " x " && [' ', 'y', ' '] == " y ";
  }

  lemma TrimPadded(c: char)
    requires !IsSpace(c)
    ensures Trim([' ', c, ' ']) == [c]
  {
    var s := [' ', c, ' '];
    assert s[1..] == [c, ' '];
    TrimLeftAt(s, 1);
    assert [c, ' '][..1] == [c];
    TrimRightAt([c, ' '], 1);
  }

  /** A short row is padded with empty cells. */
  lemma CellsPadShortRow()
    ensures Cells("a", 3) == ["a", "", ""]
  {
    SplitNoDelimiter("a", ',');
    assert Trim("a") == "a";
  }

  /** The table: every row cut into exactly `m` cells. */
  function TableOf(rows: seq<string>, m: nat): (t: seq<seq<string>>)
    ensures |t| == |rows| && forall r :: 0 <= r < |t| ==> |t[r]| == m
  {
    seq(|rows|, r requires 0 <= r < |rows| => Cells(rows[r], m))
  }

  // ---------------------------------------------------------------------------
  // Column widths

  /** Whether every row of `t` has exactly `m` cells. */
  predicate Rectangular(t: seq<seq<string>>, m: nat) {
    forall r :: 0 <= r < |t| ==> |t[r]| == m
  }

  /** A column's width once one more of its cells is seen: the larger of
      the width so far and the cell's length. */
  function Widen(w: nat, cell: string): (r: nat)
    ensures w <= r && |cell| <= r && (r == w || r == |cell|)
  {
    if |cell| > w then |cell| else w
  }

  /** The width of column `c`: the length of its longest cell, header
      included, and 0 for a table without rows. */
  function ColumnWidth(t: seq<seq<string>>, c: nat): (w: nat)
    requires forall r :: 0 <= r < |t| ==> c < |t[r]|
    ensures forall r :: 0 <= r < |t| ==> |t[r][c]| <= w
    ensures t != [] ==> exists r :: 0 <= r < |t| && |t[r][c]| == w
    ensures t == [] ==> w == 0
  {
    if t == [] then 0 else Widen(ColumnWidth(t[..|t| - 1], c), t[|t| - 1][c])
  }

  /** The widths of all `m` columns. */
  function Widths(t: seq<seq<string>>, m: nat): (w: seq<nat>)
    requires Rectangular(t, m)
    ensures |w| == m
    ensures forall c, r :: 0 <= c < m && 0 <= r < |t| ==> |t[r][c]| <= w[c]
  {
    seq(m, c requires 0 <= c < m => ColumnWidth(t, c))
  }

  /** Every width after one more row is seen. */
  function WidenAll(w: seq<nat>, row: seq<string>): (r: seq<nat>)
    requires |w| == |row|
    ensures |r| == |w|
  {
    seq(|w|, c requires 0 <= c < |w| => Widen(w[c], row[c]))
  }

  /** Measuring one more row widens every column by that row's cell. */
  lemma WidthsSnoc(t: seq<seq<string>>, row: seq<string>, m: nat)
    requires Rectangular(t, m) && |row| == m
    ensures Rectangular(t + [row], m)
    ensures Widths(t + [row], m) == WidenAll(Widths(t, m), row)
  {
    assert (t + [row])[..|t|] == t;
  }

  /** Each width is attained: once there is a row, some cell of the column
      is exactly as long as the column is wide. */
  lemma WidthsAttained(t: seq<seq<string>>, m: nat, c: nat)
    requires Rectangular(t, m) && t != [] && c < m
    ensures exists r :: 0 <= r < |t| && |t[r][c]| == Widths(t, m)[c]
  {
    assert Widths(t, m)[c] == ColumnWidth(t, c);
  }

  // ---------------------------------------------------------------------------
  // Rendering

  /** The fill runs of a border: `width + 2` copies of the fill per column. */
  function FillRuns(w: seq<nat>, fill: char): (runs: seq<string>)
    ensures |runs| == |w|
    ensures forall c :: 0 <= c < |w| ==> runs[c] == Repeat(fill, w[c] + 2)
  {
    seq(|w|, c requires 0 <= c < |w| => Repeat(fill, w[c] + 2))
  }

  /** A border or separator line: `+`, the fill runs joined by `+`, `+`. */
  function BorderLine(w: seq<nat>, fill: char): string {
    "+" + Join(FillRuns(w, fill), '+') + "+"
  }

  /** A cell value padded to its column width: left-aligned in the header
      row, right-aligned in data rows when numeric, left-aligned otherwise. */
  function CellText(v: string, width: nat, header: bool): string {
    if header || !Numeric(v) then AlignLeft(v, width) else AlignRight(v, width)
  }

  /** The piece of a row line between two column bars: one space, the
      padded value, one space. */
  function CellPiece(v: string, width: nat, header: bool): string {
    " " + CellText(v, width, header) + " "
  }

  /** The pieces of a row line, one per column. */
  function CellPieces(row: seq<string>, w: seq<nat>, header: bool): (ps: seq<string>)
    requires |row| == |w|
    ensures |ps| == |w|
    ensures forall c :: 0 <= c < |w| ==> ps[c] == CellPiece(row[c], w[c], header)
  {
    seq(|w|, c requires 0 <= c < |w| => CellPiece(row[c], w[c], header))
  }

  /** A row line: `|`, the cell pieces joined by the column bar, `|`. */
  function CellLine(row: seq<string>, w: seq<nat>, header: bool): string
    requires |row| == |w|
  {
    "|" + Join(CellPieces(row, w, header), ColumnBar) + "|"
  }

  /** The fill of the separator written after row `r`: a double line after
      the header, a single line between data rows. */
  function SeparatorFill(r: nat): char {
    if r == 0 then '=' else '-'
  }

  /** The fill of the bottom border: double for a one-row table, single
      otherwise. */
  function BottomFill(n: nat): char {
    if n == 1 then '=' else '-'
  }

  /** The row lines of a table, one per row; row 0 is the header. */
  function RowLines(t: seq<seq<string>>, w: seq<nat>): (ls: seq<string>)
    requires Rectangular(t, |w|)
    ensures |ls| == |t|
  {
    seq(|t|, r requires 0 <= r < |t| => CellLine(t[r], w, r == 0))
  }

  /** The separators of a table of `n` rows, one after each row but the
      last. */
  function Separators(n: nat, w: seq<nat>): (ls: seq<string>)
    ensures |ls| == if n == 0 then 0 else n - 1
  {
    seq(if n == 0 then 0 else n - 1, r requires 0 <= r => BorderLine(w, SeparatorFill(r)))
  }

  /** The first `k` row lines, each followed by its separator when it has
      one: the order in which the rows are written. */
  function Interleave(rows: seq<string>, seps: seq<string>, k: nat): seq<string>
    requires k <= |rows|
  {
    if k == 0 then []
    else Interleave(rows, seps, k - 1) + [rows[k - 1]] + (if k - 1 < |seps| then [seps[k - 1]] else [])
  }

  /** All lines of the table: top border, the rows and their separators,
      bottom border. */
  function TableLines(t: seq<seq<string>>, w: seq<nat>): seq<string>
    requires Rectangular(t, |w|)
  {
    [BorderLine(w, '=')] + Interleave(RowLines(t, w), Separators(|t|, w), |t|) + [BorderLine(w, BottomFill(|t|))]
  }

  /** The file written for a document: empty when there are no rows (or
      no columns), the table's lines otherwise. */
  function FormatCsv(input: string): (out: string)
    ensures out == "" || out[|out| - 1] == '\n'
  {
    var rows := Rows(input);
    var m := MaxColumns(rows);
    if |rows| == 0 || m == 0 then ""
    else
      var t := TableOf(rows, m);
      Unlines(TableLines(t, Widths(t, m)))
  }

  // ---------------------------------------------------------------------------
  // Layout lemmas

  /** Interleaving the first `k` rows gives two lines per row, except that
      the last row has no separator. */
  lemma {:induction false} InterleaveLength(rows: seq<string>, seps: seq<string>, k: nat)
    requires k <= |rows| && |seps| == |rows| - 1
    ensures |Interleave(rows, seps, k)| == if k == |rows| then 2 * k - 1 else 2 * k
  {
    if k > 0 {
      InterleaveLength(rows, seps, k - 1);
    }
  }

  /** Row `r` stands at index `2r` and its separator at `2r + 1`. */
  lemma {:induction false} InterleaveAt(rows: seq<string>, seps: seq<string>, k: nat, r: nat)
    requires r < k <= |rows| && |seps| == |rows| - 1
    ensures 2 * r < |Interleave(rows, seps, k)| && Interleave(rows, seps, k)[2 * r] == rows[r]
    ensures r < |seps| ==> 2 * r + 1 < |Interleave(rows, seps, k)| && Interleave(rows, seps, k)[2 * r + 1] == seps[r]
  {
    InterleaveLength(rows, seps, k - 1);
    InterleaveLength(rows, seps, k);
    var prev := Interleave(rows, seps, k - 1);
    if r < k - 1 {
      InterleaveAt(rows, seps, k - 1, r);
    }
  }

  /** Framing the interleaved rows between a top and a bottom line: row `r`
      lands at index `2r + 1`, its separator at `2r + 2`, the bottom line
      last. */
  lemma FramedLayout(top: string, rows: seq<string>, seps: seq<string>, bottom: string)
    requires |rows| >= 1 && |seps| == |rows| - 1
    ensures var ls := [top] + Interleave(rows, seps, |rows|) + [bottom];
            && |ls| == 2 * |rows| + 1 && ls[0] == top && ls[2 * |rows|] == bottom
            && (forall r :: 0 <= r < |rows| ==> ls[2 * r + 1] == rows[r])
            && (forall r :: 0 <= r < |seps| ==> ls[2 * r + 2] == seps[r])
  {
    var n := |rows|;
    InterleaveLength(rows, seps, n);
    var b := Interleave(rows, seps, n);
    var ls := [top] + b + [bottom];
    forall r | 0 <= r < n ensures ls[2 * r + 1] == rows[r] {
      InterleaveAt(rows, seps, n, r);
      assert ls[2 * r + 1] == b[2 * r];
    }
    forall r | 0 <= r < |seps| ensures ls[2 * r + 2] == seps[r] {
      InterleaveAt(rows, seps, n, r);
      assert ls[2 * r + 2] == b[2 * r + 1];
    }
  }

  /** The layout of a table of `n >= 1` rows: `2n + 1` lines, namely the
      double top border, row line `r` at index `2r + 1`, after each row but
      the last a separator that is double after the header and single after
      data rows, and a bottom border that is double only for a one-row
      table. */
  lemma Layout(t: seq<seq<string>>, w: seq<nat>)
    requires Rectangular(t, |w|) && |t| >= 1
    ensures |TableLines(t, w)| == 2 * |t| + 1
    ensures TableLines(t, w)[0] == BorderLine(w, '=')
    ensures forall r :: 0 <= r < |t| ==> TableLines(t, w)[2 * r + 1] == CellLine(t[r], w, r == 0)
    ensures forall r :: 0 <= r < |t| - 1 ==>
              TableLines(t, w)[2 * r + 2] == BorderLine(w, if r == 0 then '=' else '-')
    ensures TableLines(t, w)[2 * |t|] == BorderLine(w, if |t| == 1 then '=' else '-')
  {
    var n := |t|;
    var rows, seps := RowLines(t, w), Separators(n, w);
    var top, bottom := BorderLine(w, '='), BorderLine(w, BottomFill(n));
    FramedLayout(top, rows, seps, bottom);
    var ls := TableLines(t, w);
    assert ls == [top] + Interleave(rows, seps, n) + [bottom];
    forall r | 0 <= r < n ensures ls[2 * r + 1] == CellLine(t[r], w, r == 0) {
      assert ls[2 * r + 1] == rows[r];
    }
    forall r | 0 <= r < n - 1 ensures ls[2 * r + 2] == BorderLine(w, if r == 0 then '=' else '-') {
      assert ls[2 * r + 2] == seps[r];
    }
  }

  /** Writing row line `k` and, unless it is the last row, its separator
      extends the file by those lines. */
  lemma RenderStep(pre: string, rows: seq<string>, seps: seq<string>, k: nat)
    requires k < |rows|
    ensures k < |seps| ==>
              (pre + Unlines(Interleave(rows, seps, k + 1))
               == pre + Unlines(Interleave(rows, seps, k)) + rows[k] + "\n" + seps[k] + "\n")
    ensures k >= |seps| ==>
              (pre + Unlines(Interleave(rows, seps, k + 1))
               == pre + Unlines(Interleave(rows, seps, k)) + rows[k] + "\n")
  {
    var a := Interleave(rows, seps, k);
    UnlinesSnoc(a, rows[k]);
    if k < |seps| {
      assert Interleave(rows, seps, k + 1) == a + [rows[k]] + [seps[k]];
      UnlinesSnoc(a + [rows[k]], seps[k]);
    } else {
      assert Interleave(rows, seps, k + 1) == a + [rows[k]];
    }
  }

  /** The file of a table: the top border's line, the rows with their
      separators, the bottom border's line, in the order they are written. */
  lemma TableText(pre: string, t: seq<seq<string>>, w: seq<nat>)
    requires Rectangular(t, |w|)
    ensures pre + Unlines(TableLines(t, w))
            == pre + BorderLine(w, '=') + "\n" + Unlines(Interleave(RowLines(t, w), Separators(|t|, w), |t|))
               + BorderLine(w, BottomFill(|t|)) + "\n"
  {
    UnlinesFramed(pre, BorderLine(w, '='), Interleave(RowLines(t, w), Separators(|t|, w), |t|), BorderLine(w, BottomFill(|t|)));
  }

  /** Two joins of the same number of pieces, piece by piece of equal
      length, have equal length. */
  lemma {:induction false} JoinSameShape(ps: seq<string>, qs: seq<string>, d: char, e: char)
    requires |ps| == |qs|
    requires forall i :: 0 <= i < |ps| ==> |ps[i]| == |qs[i]|
    ensures |Join(ps, d)| == |Join(qs, e)|
  {
    if |ps| > 1 {
      JoinSameShape(ps[..|ps| - 1], qs[..|qs| - 1], d, e);
    }
  }

  /** A padded cell is exactly as wide as its column, holds the value and
      otherwise only spaces; the value sits at the left edge unless it is a
      numeric data value, which sits at the right edge. */
  lemma CellTextShape(v: string, width: nat, header: bool)
    requires |v| <= width
    ensures |CellText(v, width, header)| == width
    ensures header || !Numeric(v) ==> CellText(v, width, header)[..|v|] == v
    ensures !header && Numeric(v) ==> CellText(v, width, header)[width - |v|..] == v
    ensures header || !Numeric(v) ==> forall k :: |v| <= k < width ==> CellText(v, width, header)[k] == ' '
    ensures !header && Numeric(v) ==> forall k :: 0 <= k < width - |v| ==> CellText(v, width, header)[k] == ' '
  {
  }

  /** Every line of the table is equally long when the widths bound the
      cells: each column takes `width + 2` characters between its
      separators. */
  lemma LinesAligned(row: seq<string>, w: seq<nat>, header: bool, fill: char)
    requires |row| == |w|
    requires forall c :: 0 <= c < |w| ==> |row[c]| <= w[c]
    ensures forall c :: 0 <= c < |w| ==> |CellPieces(row, w, header)[c]| == w[c] + 2
    ensures |CellLine(row, w, header)| == |BorderLine(w, fill)|
  {
    var ps := CellPieces(row, w, header);
    var qs := FillRuns(w, fill);
    forall c | 0 <= c < |w| ensures |ps[c]| == w[c] + 2 == |qs[c]| {
      CellTextShape(row[c], w[c], header);
    }
    JoinSameShape(ps, qs, ColumnBar, '+');
  }

  /** Reading a row line back: when no cell holds the column bar, the text
      between consecutive bars is exactly the column's piece. */
  lemma CellLineColumns(row: seq<string>, w: seq<nat>, header: bool)
    requires |row| == |w| && |w| >= 1
    requires forall c :: 0 <= c < |w| ==> ColumnBar !in row[c]
    ensures Split(Join(CellPieces(row, w, header), ColumnBar), ColumnBar) == CellPieces(row, w, header)
  {
    var ps := CellPieces(row, w, header);
    forall c | 0 <= c < |w| ensures ColumnBar !in ps[c] {
      CellTextChars(row[c], w[c], header);
    }
    SplitJoin(ps, ColumnBar);
  }

  /** Reading a border back: the runs between its `+` junctions are the
      fill runs, one per column. */
  lemma BorderColumns(w: seq<nat>, fill: char)
    requires |w| >= 1 && fill != '+'
    ensures Split(Join(FillRuns(w, fill), '+'), '+') == FillRuns(w, fill)
  {
    SplitJoin(FillRuns(w, fill), '+');
  }

  /** A border has no newline. */
  lemma BorderNewlineFree(w: seq<nat>, fill: char)
    requires fill != '\n'
    ensures '\n' !in BorderLine(w, fill)
  {
    if '\n' in Join(FillRuns(w, fill), '+') {
      JoinFrom(FillRuns(w, fill), '+', '\n');
    }
  }

  /** A row line has no newline when its cells have none. */
  lemma CellLineNewlineFree(row: seq<string>, w: seq<nat>, header: bool)
    requires |row| == |w|
    requires forall c :: 0 <= c < |w| ==> '\n' !in row[c]
    ensures '\n' !in CellLine(row, w, header)
  {
    var ps := CellPieces(row, w, header);
    if '\n' in Join(ps, ColumnBar) {
      JoinFrom(ps, ColumnBar, '\n');
      var c :| 0 <= c < |ps| && '\n' in ps[c];
      CellTextChars(row[c], w[c], header);
    }
  }

  /** No line of the table contains a newline, provided no cell does. */
  lemma LinesNewlineFree(t: seq<seq<string>>, w: seq<nat>)
    requires Rectangular(t, |w|) && |t| >= 1
    requires forall r, c :: 0 <= r < |t| && 0 <= c < |w| ==> '\n' !in t[r][c]
    ensures forall i :: 0 <= i < |TableLines(t, w)| ==> '\n' !in TableLines(t, w)[i]
  {
    var rows, seps := RowLines(t, w), Separators(|t|, w);
    forall r | 0 <= r < |rows| ensures '\n' !in rows[r] {
      CellLineNewlineFree(t[r], w, r == 0);
    }
    forall r | 0 <= r < |seps| ensures '\n' !in seps[r] {
      BorderNewlineFree(w, SeparatorFill(r));
    }
    InterleaveNewlineFree(rows, seps, |t|);
    BorderNewlineFree(w, '=');
    BorderNewlineFree(w, BottomFill(|t|));
    FramedNewlineFree(BorderLine(w, '='), Interleave(rows, seps, |t|), BorderLine(w, BottomFill(|t|)));
  }

  /** The lines written for the rows are free of newlines when the row lines
      and the separators are. */
  lemma {:induction false} InterleaveNewlineFree(rows: seq<string>, seps: seq<string>, k: nat)
    requires k <= |rows|
    requires forall i :: 0 <= i < |rows| ==> '\n' !in rows[i]
    requires forall i :: 0 <= i < |seps| ==> '\n' !in seps[i]
    ensures forall i :: 0 <= i < |Interleave(rows, seps, k)| ==> '\n' !in Interleave(rows, seps, k)[i]
  {
    if k > 0 {
      InterleaveNewlineFree(rows, seps, k - 1);
      var a := Interleave(rows, seps, k - 1);
      var b := [rows[k - 1]] + (if k - 1 < |seps| then [seps[k - 1]] else []);
      assert Interleave(rows, seps, k) == a + b;
      assert forall i :: 0 <= i < |b| ==> '\n' !in b[i];
    }
  }

  /** A first line, newline-free lines and a last line are newline-free. */
  lemma FramedNewlineFree(first: string, body: seq<string>, last: string)
    requires '\n' !in first && '\n' !in last
    requires forall i :: 0 <= i < |body| ==> '\n' !in body[i]
    ensures forall i :: 0 <= i < |[first] + body + [last]| ==> '\n' !in ([first] + body + [last])[i]
  {
    var ls := [first] + body + [last];
    forall i | 0 <= i < |ls| ensures '\n' !in ls[i] {
      if 0 < i <= |body| {
        assert ls[i] == body[i - 1];
      }
    }
  }

  /** Any character of a padded cell is a space or a character of the value. */
  lemma CellTextChars(v: string, width: nat, header: bool)
    ensures forall x :: x in CellText(v, width, header) ==> x == ' ' || x in v
  {
    var p := CellText(v, width, header);
    forall x | x in p ensures x == ' ' || x in v {
      var k :| 0 <= k < |p| && p[k] == x;
      if header || !Numeric(v) {
        if k < |v| { assert p[..|v|][k] == x; }
      } else {
        if k >= |p| - |v| { assert p[|p| - |v|..][k - (|p| - |v|)] == x; }
      }
    }
  }

  // ---------------------------------------------------------------------------
  // Whole-document properties

  /** The table of a document: exactly `MaxColumns` cells per row, and the
      widths bound every cell of their column. */
  lemma TableShape(input: string)
    ensures var rows := Rows(input);
            var m := MaxColumns(rows);
            var t := TableOf(rows, m);
            && |t| == |rows|
            && (forall r :: 0 <= r < |t| ==> |t[r]| == m)
            && (forall r, c :: 0 <= r < |t| && 0 <= c < m ==> |t[r][c]| <= Widths(t, m)[c])
            && (rows != [] ==> m >= 1)
  {
  }

  /** An empty output file is written exactly when the document has no rows. */
  lemma EmptyOutput(input: string)
    ensures FormatCsv(input) == "" <==> Rows(input) == []
  {
    var rows := Rows(input);
    if rows != [] {
      var m := MaxColumns(rows);
      var t := TableOf(rows, m);
      var ls := TableLines(t, Widths(t, m));
      assert ls != [];
      assert Unlines(ls) == Unlines(ls[..|ls| - 1]) + ls[|ls| - 1] + "\n";
    }
  }

  /** The output file of a document with `n >= 1` rows, read back line by
      line: `2n + 1` newline-terminated lines laid out as Layout says. */
  lemma OutputLines(input: string)
    requires Rows(input) != []
    ensures var rows := Rows(input);
            var m := MaxColumns(rows);
            var t := TableOf(rows, m);
            Split(FormatCsv(input), '\n') == TableLines(t, Widths(t, m)) + [""]
            && |TableLines(t, Widths(t, m))| == 2 * |rows| + 1
  {
    var rows := Rows(input);
    var m := MaxColumns(rows);
    var t := TableOf(rows, m);
    var w := Widths(t, m);
    RowsAreLines(input);
    forall r, c | 0 <= r < |t| && 0 <= c < |w| ensures '\n' !in t[r][c] {
      CellsFrom(rows[r], m);
    }
    LinesNewlineFree(t, w);
    UnlinesSplit(TableLines(t, w));
    Layout(t, w);
  }
}
