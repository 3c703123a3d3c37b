/** The converter itself, step by step as it runs: the classifier and comma
    counter loops, `strtok_r` over the input buffer, a first pass that
    counts rows and columns, a second pass that cuts each line in a private
    copy (writing NULs over its commas and trailing blanks) into the table
    and the column widths, and the rendering loops that write the box table
    to the output file. Each method is proved to compute the corresponding
    function of CsvSpec. */
module CsvProcessor {
  import opened Text
  import opened CsvSpec
  import opened Output

  datatype Option<T> = None | Some(value: T)

  // ---------------------------------------------------------------------------
  // Helpers

  /** `isNumber`: scans the value, remembering whether a dot was seen, and
      gives up at a second dot or at any other non-digit. */
  method IsNumber(s: string) returns (b: bool)
    ensures b == Numeric(s)
  {
    if s == [] {
      return false;
    }
    var hasDecimal := false;
    var i := 0;
    while i < |s|
      invariant 0 <= i <= |s|
      invariant forall k :: 0 <= k < i ==> IsDigit(s[k]) || s[k] == '.'
      invariant Count(s[..i], '.') <= 1
      invariant hasDecimal <==> Count(s[..i], '.') == 1
    {
      assert s[..i + 1][..i] == s[..i];
      if s[i] == '.' {
        if hasDecimal {
          CountPrefix(s, i + 1, '.');
          return false;
        }
        hasDecimal := true;
      } else if !IsDigit(s[i]) {
        return false;
      }
      i := i + 1;
    }
    assert s[..i] == s;
    return true;
  }

  /** `countCommas`: the number of commas in a line. */
  method CountCommas(s: string) returns (count: nat)
    ensures count == Count(s, ',')
  {
    count := 0;
    var i := 0;
    while i < |s|
      invariant 0 <= i <= |s|
      invariant count == Count(s[..i], ',')
    {
      assert s[..i + 1][..i] == s[..i];
      if s[i] == ',' {
        count := count + 1;
      }
      i := i + 1;
    }
    assert s[..i] == s;
  }

  /** One call of `strtok_r(…, "\n", &context)` on the input buffer, with
      the `context` argument as the index `pos`: skip newlines, then take the
      characters up to the next newline, NUL or end of buffer, and resume
      after that newline next time. The token is the first remaining row,
      and the remaining rows are those after `next`. */
  method StrTok(buf: string, pos: nat) returns (token: Option<string>, next: nat)
    requires pos <= |buf|
    ensures pos <= next <= |buf|
    ensures token.None? ==> RowsFrom(buf, pos) == []
    ensures token.Some? ==> pos < next && RowsFrom(buf, pos) == [token.value] + RowsFrom(buf, next)
  {
    var p := pos;
    while p < |buf| && buf[p] == '\n'
      invariant pos <= p <= |buf|
      invariant RowsFrom(buf, pos) == RowsFrom(buf, p)
    {
      RowsFromSkip(buf, p);
      p := p + 1;
    }
    if p == |buf| || buf[p] == NUL {
      RowsFromEnd(buf, p);
      return None, p;
    }
    var q := p;
    while q < |buf| && buf[q] != '\n' && buf[q] != NUL
      invariant p <= q <= |buf|
      invariant forall k :: p <= k < q ==> buf[k] != '\n' && buf[k] != NUL
    {
      q := q + 1;
    }
    RowsFromToken(buf, p, q);
    token := Some(buf[p..q]);
    next := if q < |buf| && buf[q] == '\n' then q + 1 else q;
  }

  // ---------------------------------------------------------------------------
  // First pass: rows and columns

  /** The rows read so far, the current token and the rows after it make
      up the document; reading the next token moves it to the rows read. */
  lemma TokenAfter(rows: seq<string>, done: seq<string>, rest: seq<string>, tok: string, after: seq<string>)
    requires done + rest == rows && rest == [tok] + after
    ensures done + [tok] + after == rows
  {
  }

  /** The current token is the next row, and taking it into the prefix keeps
      the document. */
  lemma NextRow(rows: seq<string>, k: nat, line: string, rest: seq<string>)
    requires k <= |rows| && rows[..k] + [line] + rest == rows
    ensures k < |rows| && rows[k] == line && rows[..k + 1] + rest == rows
  {
    assert (rows[..k] + [line] + rest)[k] == line;
    assert rows[..k + 1] == rows[..k] + [line];
  }

  /** The first pass over a copy of the buffer: count the lines and keep
      the largest comma count plus one. */
  method CountShape(buf: string) returns (rowsNumber: nat, maxColumns: nat)
    ensures rowsNumber == |Rows(buf)|
    ensures maxColumns == MaxColumns(Rows(buf))
  {
    rowsNumber, maxColumns := 0, 0;
    ghost var seen: seq<string> := [];
    var line, context := StrTok(buf, 0);
    while line.Some?
      invariant context <= |buf|
      invariant rowsNumber == |seen| && maxColumns == MaxColumns(seen)
      invariant line.Some? ==> seen + [line.value] + RowsFrom(buf, context) == Rows(buf)
      invariant line.None? ==> seen == Rows(buf)
      decreases |buf| - context + (if line.Some? then 1 else 0)
    {
      rowsNumber := rowsNumber + 1;
      var commas := CountCommas(line.value);
      var columnsInLine := commas + 1;
      if columnsInLine > maxColumns {
        maxColumns := columnsInLine;
      }
      assert (seen + [line.value])[..|seen|] == seen;
      ghost var rest := RowsFrom(buf, context);
      seen := seen + [line.value];
      line, context := StrTok(buf, context);
      if line.Some? {
        TokenAfter(Rows(buf), seen, rest, line.value, RowsFrom(buf, context));
      } else {
        assert seen + [] == Rows(buf);
      }
    }
  }

  // ---------------------------------------------------------------------------
  // Second pass: cutting a line into cells

  /** `strlen`: the number of characters from `i` up to the first NUL
      (the buffer's end stands for the terminator). */
  method Strlen(a: array<char>, i: nat) returns (n: nat)
    requires i <= a.Length
    ensures i + n <= a.Length && (i + n == a.Length || a[i + n] == NUL)
    ensures forall j :: i <= j < i + n ==> a[j] != NUL
  {
    n := 0;
    while i + n < a.Length && a[i + n] != NUL
      invariant i + n <= a.Length
      invariant forall j :: i <= j < i + n ==> a[j] != NUL
    {
      n := n + 1;
    }
  }

  /** `strdup`: a copy of the characters from `i` up to the first NUL. */
  method Strdup(a: array<char>, i: nat) returns (r: string)
    requires i <= a.Length
    ensures i + |r| <= a.Length && r == a[i..i + |r|]
    ensures i + |r| == a.Length || a[i + |r|] == NUL
    ensures forall j :: i <= j < i + |r| ==> a[j] != NUL
  {
    r := "";
    var k := i;
    while k < a.Length && a[k] != NUL
      invariant i <= k <= a.Length
      invariant r == a[i..k]
      invariant forall j :: i <= j < k ==> a[j] != NUL
    {
      r := r + [a[k]];
      k := k + 1;
    }
  }

  /** The two scans that find a field's value: forward from `start` over
      leading whitespace to `v`, then back from the last character (found
      with `strlen`) over trailing whitespace, never past `v`, to the end
      `e` of the value. The field `a[start..stop]`, ended by a NUL, holds
      the characters of `field`. */
  method TrimBounds(a: array<char>, start: nat, ghost stop: nat, ghost field: string) returns (v: nat, e: nat)
    requires start <= stop < a.Length && a[stop] == NUL
    requires |field| == stop - start && forall k :: start <= k < stop ==> a[k] == field[k - start]
    requires NUL !in field
    ensures start <= v <= e <= stop
    ensures TrimLeft(field) == field[v - start..]
    ensures Trim(field) == field[v - start..e - start]
  {
    v := SkipLeading(a, start, stop, field);
    var len := Strlen(a, v);
    NulUnique(a[..], v, len, stop - v);
    e := SkipTrailing(a, start, v, v + len, field);
    TrimAt(field, v - start, e - start);
  }

  /** The left trim loop: step over whitespace. It stops at the NUL at
      the latest, since a NUL is not whitespace. */
  method SkipLeading(a: array<char>, start: nat, ghost stop: nat, ghost field: string) returns (v: nat)
    requires start <= stop < a.Length && a[stop] == NUL
    requires |field| == stop - start && forall k :: start <= k < stop ==> a[k] == field[k - start]
    ensures start <= v <= stop
    ensures forall k :: 0 <= k < v - start ==> IsSpace(field[k])
    ensures v == stop || !IsSpace(field[v - start])
  {
    v := start;
    while IsSpace(a[v])
      invariant start <= v <= stop
      invariant forall k :: 0 <= k < v - start ==> IsSpace(field[k])
      decreases stop - v
    {
      v := v + 1;
    }
  }

  /** The right trim loop: from the last character before the NUL at
      `stop`, step back over whitespace, never past `v`; `e` is just after
      the value. */
  method SkipTrailing(a: array<char>, start: nat, v: nat, stop: nat, ghost field: string) returns (e: nat)
    requires start <= v <= stop < a.Length && (v == stop || !IsSpace(a[v]))
    requires |field| == stop - start && forall k :: start <= k < stop ==> a[k] == field[k - start]
    ensures v <= e <= stop
    ensures forall k :: e - start <= k < |field| ==> IsSpace(field[k])
    ensures e == v || !IsSpace(field[e - 1 - start])
  {
    var last: int := stop - 1;
    while last > v && IsSpace(a[last])
      invariant v - 1 <= last < stop
      invariant forall k :: last - start < k < |field| ==> IsSpace(field[k])
    {
      last := last - 1;
    }
    e := last + 1;
  }

  /** Trimming one field in place: find the value, write a NUL just after
      it and copy it out. The value is the trimmed field, and the only
      character changed is the one just after the value. */
  method ExtractTrimmed(a: array<char>, start: nat, ghost stop: nat, ghost field: string) returns (value: string)
    requires start <= stop < a.Length && a[stop] == NUL
    requires |field| == stop - start && forall k :: start <= k < stop ==> a[k] == field[k - start]
    requires NUL !in field
    modifies a
    ensures value == Trim(field)
    ensures var p := stop - |TrimLeft(field)| + |value|;
            start <= p <= stop && a[..] == old(a[..])[p := NUL]
  {
    var v, e := TrimBounds(a, start, stop, field);
    ghost var cut := a[..][e := NUL];
    a[e] := NUL;
    assert a[..] == cut;
    value := Strdup(a, v);
    NulUnique(cut, v, |value|, e - v);
    assert value == cut[v..e];
    assert cut[v..e] == field[v - start..e - start];
  }

  /** The row while its line is being cut: the first `k` cells are the
      line's, the rest are as they were. */
  ghost function Overlay(before: seq<string>, cells: seq<string>, k: nat): (r: seq<string>)
    requires k <= |before| == |cells|
    ensures |r| == |before|
  {
    cells[..k] + before[k..]
  }

  /** The widths while a line is being cut: the first `k` columns have
      taken in the line's cells, the rest are as they were. */
  ghost function WidenPrefix(before: seq<nat>, cells: seq<string>, k: nat): (r: seq<nat>)
    requires k <= |before| == |cells|
    ensures |r| == |before|
  {
    WidenAll(before[..k], cells[..k]) + before[k..]
  }

  /** Storing cell `k` extends the overlay by one. */
  lemma OverlayStep(before: seq<string>, cells: seq<string>, k: nat)
    requires k < |before| == |cells|
    ensures Overlay(before, cells, k)[k := cells[k]] == Overlay(before, cells, k + 1)
  {
    assert cells[..k + 1] == cells[..k] + [cells[k]];
  }

  /** Widening column `k` extends the widened prefix by one. */
  lemma WidenPrefixStep(before: seq<nat>, cells: seq<string>, k: nat)
    requires k < |before| == |cells|
    ensures WidenPrefix(before, cells, k)[k := Widen(before[k], cells[k])] == WidenPrefix(before, cells, k + 1)
  {
  }

  /** Storing one field: trim the field `lineCopy[start..stop]` in place,
      keep the value as cell `columnIndex` of the row and widen that column
      when the value is longer than its width so far. */
  method StoreField(row: array<string>, columnsSizes: array<nat>, columnIndex: nat,
                    lineCopy: array<char>, start: nat, ghost stop: nat, ghost field: string)
    requires row.Length == columnsSizes.Length && columnIndex < row.Length
    requires start <= stop < lineCopy.Length && lineCopy[stop] == NUL
    requires |field| == stop - start && forall k :: start <= k < stop ==> lineCopy[k] == field[k - start]
    requires NUL !in field
    modifies row, columnsSizes, lineCopy
    ensures row[..] == old(row[..])[columnIndex := Trim(field)]
    ensures columnsSizes[..] == old(columnsSizes[..])[columnIndex := Widen(old(columnsSizes[columnIndex]), Trim(field))]
    ensures forall k :: 0 <= k < lineCopy.Length && !(start <= k <= stop) ==> lineCopy[k] == old(lineCopy[k])
  {
    var value := ExtractTrimmed(lineCopy, start, stop, field);
    row[columnIndex] := value;
    var length := |value|;
    if length > columnsSizes[columnIndex] {
      columnsSizes[columnIndex] := length;
    }
  }

  /** The comma loop of one line of the second pass: walk `lineCopy` (the
      line with a NUL after it) and at every comma cut the field before it
      off with a NUL and store it as the next cell of the row. On return
      the commas are all read, `start` is where the last field begins, and
      exactly the cells before `columnIndex` are filled. */
  method CutFields(row: array<string>, columnsSizes: array<nat>, line: string, lineCopy: array<char>)
    returns (columnIndex: nat, start: nat)
    requires row.Length == columnsSizes.Length && Count(line, ',') + 1 <= row.Length
    requires NUL !in line
    requires lineCopy.Length == |line| + 1 && lineCopy[|line|] == NUL
    requires forall k :: 0 <= k < |line| ==> lineCopy[k] == line[k]
    modifies row, columnsSizes, lineCopy
    ensures start <= |line| && columnIndex == Count(line, ',') == CountTo(line, start, ',')
    ensures (start == 0 || line[start - 1] == ',') && forall k :: start <= k < |line| ==> line[k] != ','
    ensures lineCopy[|line|] == NUL && forall k :: start <= k < |line| ==> lineCopy[k] == line[k]
    ensures row[..] == Overlay(old(row[..]), Cells(line, row.Length), columnIndex)
    ensures columnsSizes[..] == WidenPrefix(old(columnsSizes[..]), Cells(line, row.Length), columnIndex)
  {
    var n := |line|;
    ghost var row0, sizes0 := row[..], columnsSizes[..];
    columnIndex := 0;
    start := 0;
    var current := 0;
    assert row[..] == Overlay(row0, Cells(line, row.Length), 0);
    assert columnsSizes[..] == WidenPrefix(sizes0, Cells(line, row.Length), 0);
    while lineCopy[current] != NUL
      invariant CutState(row, columnsSizes, line, lineCopy, row0, sizes0, columnIndex, start, current)
      decreases n - current
    {
      columnIndex, start := CutStep(row, columnsSizes, line, lineCopy, row0, sizes0, columnIndex, start, current);
      current := current + 1;
    }
    assert current == n;
    CountToSkip(line, start, n, ',');
    CountToEnd(line, ',');
  }

  /** The state of the comma loop at position `current`: the field being
      read began at `start` and holds no comma yet, the cells before
      `columnIndex` are stored and widened, and the copy still holds the
      line from `start` on. */
  ghost predicate CutState(row: array<string>, columnsSizes: array<nat>, line: string, lineCopy: array<char>,
                           row0: seq<string>, sizes0: seq<nat>, columnIndex: nat, start: nat, current: nat)
    reads row, columnsSizes, lineCopy
  {
    && row.Length == columnsSizes.Length == |row0| == |sizes0|
    && Count(line, ',') + 1 <= row.Length
    && start <= current <= |line|
    && lineCopy.Length == |line| + 1 && lineCopy[|line|] == NUL
    && (start == 0 || line[start - 1] == ',')
    && (forall k :: start <= k < current ==> line[k] != ',')
    && columnIndex == CountTo(line, start, ',') < row.Length
    && (forall k :: start <= k < |line| ==> lineCopy[k] == line[k])
    && row[..] == Overlay(row0, Cells(line, row.Length), columnIndex)
    && columnsSizes[..] == WidenPrefix(sizes0, Cells(line, row.Length), columnIndex)
  }

  /** One turn of the comma loop: a comma ends the current field, which is
      stored, and the next field begins after it; any other character is
      part of the current field. */
  method CutStep(row: array<string>, columnsSizes: array<nat>, line: string, lineCopy: array<char>,
                 ghost row0: seq<string>, ghost sizes0: seq<nat>, columnIndex: nat, start: nat, current: nat)
    returns (columnIndex': nat, start': nat)
    requires NUL !in line
    requires CutState(row, columnsSizes, line, lineCopy, row0, sizes0, columnIndex, start, current)
    requires lineCopy[current] != NUL
    modifies row, columnsSizes, lineCopy
    ensures current < |line|
    ensures line[current] == ',' ==> columnIndex' == columnIndex + 1 && start' == current + 1
    ensures line[current] != ',' ==> columnIndex' == columnIndex && start' == start
    ensures CutState(row, columnsSizes, line, lineCopy, row0, sizes0, columnIndex', start', current + 1)
  {
    if lineCopy[current] == ',' {
      CutAtComma(row, columnsSizes, line, lineCopy, columnIndex, start, current, row0, sizes0);
      columnIndex', start' := columnIndex + 1, current + 1;
    } else {
      NoCommaExtend(line, start, current);
      columnIndex', start' := columnIndex, start;
    }
  }

  /** A character other than a comma keeps the field comma-free. */
  lemma NoCommaExtend(line: string, start: nat, current: nat)
    requires start <= current < |line| && line[current] != ','
    requires forall k :: start <= k < current ==> line[k] != ','
    ensures forall k :: start <= k < current + 1 ==> line[k] != ','
  {
  }

  /** The comma branch of the comma loop: the comma at `current` ends the
      field that began at `start`; overwrite it with a NUL and store the
      trimmed field as cell `columnIndex`, the next cell of the row. */
  method CutAtComma(row: array<string>, columnsSizes: array<nat>, line: string, lineCopy: array<char>,
                    columnIndex: nat, start: nat, current: nat, ghost row0: seq<string>, ghost sizes0: seq<nat>)
    requires row.Length == columnsSizes.Length == |row0| == |sizes0| && Count(line, ',') + 1 <= row.Length
    requires lineCopy.Length == |line| + 1 && lineCopy[|line|] == NUL
    requires start <= current < |line| && line[current] == ','
    requires start == 0 || line[start - 1] == ','
    requires forall k :: start <= k < current ==> line[k] != ','
    requires forall k :: start <= k < |line| ==> lineCopy[k] == line[k]
    requires NUL !in line
    requires columnIndex == CountTo(line, start, ',') < row.Length
    requires row[..] == Overlay(row0, Cells(line, row.Length), columnIndex)
    requires columnsSizes[..] == WidenPrefix(sizes0, Cells(line, row.Length), columnIndex)
    modifies row, columnsSizes, lineCopy
    ensures columnIndex + 1 == CountTo(line, current + 1, ',') < row.Length
    ensures lineCopy[|line|] == NUL && forall k :: current < k < |line| ==> lineCopy[k] == line[k]
    ensures row[..] == Overlay(row0, Cells(line, row.Length), columnIndex + 1)
    ensures columnsSizes[..] == WidenPrefix(sizes0, Cells(line, row.Length), columnIndex + 1)
  {
    CommaStep(line, row0, sizes0, start, current);
    lineCopy[current] := NUL;
    StoreField(row, columnsSizes, columnIndex, lineCopy, start, current, line[start..current]);
  }

  /** What the comma branch relies on: the field before the comma is the
      next cell, storing it and widening its column extend the row and the
      widths by one column, and one more comma has been read. */
  lemma CommaStep(line: string, row0: seq<string>, sizes0: seq<nat>, start: nat, current: nat)
    requires |row0| == |sizes0| && Count(line, ',') + 1 <= |row0|
    requires start <= current < |line| && line[current] == ','
    requires start == 0 || line[start - 1] == ','
    requires forall k :: start <= k < current ==> line[k] != ','
    ensures var k, cells := CountTo(line, start, ','), Cells(line, |row0|);
            && k + 1 == CountTo(line, current + 1, ',') < |row0|
            && Overlay(row0, cells, k)[k := Trim(line[start..current])] == Overlay(row0, cells, k + 1)
            && WidenPrefix(sizes0, cells, k)[k] == sizes0[k]
            && WidenPrefix(sizes0, cells, k)[k := Widen(sizes0[k], Trim(line[start..current]))]
               == WidenPrefix(sizes0, cells, k + 1)
  {
    var k, cells := CountTo(line, start, ','), Cells(line, |row0|);
    var cell := Trim(line[start..current]);
    assert k < |row0| && cells[k] == cell by {
      FieldCell(line, |row0|, start, current);
    }
    assert k + 1 == CountTo(line, current + 1, ',') < |row0| by {
      CountToSkip(line, start, current, ',');
      CountToBound(line, current + 1, ',');
    }
    OverlayStep(row0, cells, k);
    WidenPrefixStep(sizes0, cells, k);
  }

  /** A field found by the scan, from just after a comma (or the line's
      start) up to the next comma (or the line's end), trims to the line's
      cell numbered by the commas before it. */
  lemma FieldCell(line: string, m: nat, i: nat, j: nat)
    requires Count(line, ',') + 1 <= m
    requires i <= j <= |line|
    requires i == 0 || line[i - 1] == ','
    requires forall k :: i <= k < j ==> line[k] != ','
    requires j == |line| || line[j] == ','
    ensures CountTo(line, i, ',') < m && Cells(line, m)[CountTo(line, i, ',')] == Trim(line[i..j])
  {
    CountToIsCount(line, i, ',');
    SplitPieceAt(line, i, j, ',');
    SplitLength(line, ',');
  }

  /** The cells past a line's own fields are empty, so they widen nothing. */
  lemma PaddingCells(line: string, m: nat, sizes: seq<nat>)
    requires Count(line, ',') + 1 <= m == |sizes|
    ensures WidenPrefix(sizes, Cells(line, m), Count(line, ',') + 1) == WidenAll(sizes, Cells(line, m))
    ensures forall c :: Count(line, ',') < c < m ==> Cells(line, m)[c] == ""
  {
    SplitLength(line, ',');
  }

  /** One line of the second pass: copy the line into a NUL-terminated
      buffer, cut it at every comma, then store the value after the last
      comma, then empty strings for the columns the line does not have
      (which leave the widths alone). The row ends up holding the line's
      cells and each width takes in its column's cell. */
  method FillRow(row: array<string>, columnsSizes: array<nat>, line: string)
    requires row.Length == columnsSizes.Length && Count(line, ',') + 1 <= row.Length
    requires NUL !in line
    modifies row, columnsSizes
    ensures row[..] == Cells(line, row.Length)
    ensures columnsSizes[..] == WidenAll(old(columnsSizes[..]), Cells(line, row.Length))
  {
    var n := |line|;
    var m := row.Length;
    ghost var cells := Cells(line, m);
    ghost var row0, sizes0 := row[..], columnsSizes[..];
    var lineCopy := CopyLine(line);
    var columnIndex, start := CutFields(row, columnsSizes, line, lineCopy);
    FinishRow(row, columnsSizes, line, lineCopy, columnIndex, start, row0, sizes0);
  }

  /** After the comma loop: the value after the last comma, when the row
      has room for it, then empty strings for the remaining columns. */
  method FinishRow(row: array<string>, columnsSizes: array<nat>, line: string, lineCopy: array<char>,
                   columnIndex: nat, start: nat, ghost row0: seq<string>, ghost sizes0: seq<nat>)
    requires row.Length == columnsSizes.Length == |row0| == |sizes0| && Count(line, ',') + 1 <= row.Length
    requires lineCopy.Length == |line| + 1 && lineCopy[|line|] == NUL
    requires start <= |line| && (start == 0 || line[start - 1] == ',')
    requires forall k :: start <= k < |line| ==> line[k] != ','
    requires forall k :: start <= k < |line| ==> lineCopy[k] == line[k]
    requires NUL !in line
    requires columnIndex == Count(line, ',') == CountTo(line, start, ',')
    requires row[..] == Overlay(row0, Cells(line, row.Length), columnIndex)
    requires columnsSizes[..] == WidenPrefix(sizes0, Cells(line, row.Length), columnIndex)
    modifies row, columnsSizes, lineCopy
    ensures row[..] == Cells(line, row.Length)
    ensures columnsSizes[..] == WidenAll(sizes0, Cells(line, row.Length))
  {
    var m := row.Length;
    ghost var cells := Cells(line, m);
    var filled := columnIndex;
    if filled < m {
      StoreLastField(row, columnsSizes, line, lineCopy, filled, start, row0, sizes0);
      filled := filled + 1;
    }
    assert filled == Count(line, ',') + 1;
    PaddingCells(line, m, sizes0);
    assert columnsSizes[..] == WidenAll(sizes0, cells);
    PadRow(row, filled, row0, cells);
  }

  /** The line's characters in a fresh buffer, terminated by a NUL. */
  method CopyLine(line: string) returns (lineCopy: array<char>)
    ensures fresh(lineCopy) && lineCopy.Length == |line| + 1 && lineCopy[|line|] == NUL
    ensures forall k :: 0 <= k < |line| ==> lineCopy[k] == line[k]
  {
    var n := |line|;
    lineCopy := new char[n + 1](k requires 0 <= k <= n => if k < n then line[k] else NUL);
  }

  /** The value after the last comma runs to the end of the line (the
      NUL of the copy); it is stored as cell `columnIndex`. */
  method StoreLastField(row: array<string>, columnsSizes: array<nat>, line: string, lineCopy: array<char>,
                        columnIndex: nat, start: nat, ghost row0: seq<string>, ghost sizes0: seq<nat>)
    requires row.Length == columnsSizes.Length == |row0| == |sizes0| && Count(line, ',') + 1 <= row.Length
    requires lineCopy.Length == |line| + 1 && lineCopy[|line|] == NUL
    requires start <= |line| && (start == 0 || line[start - 1] == ',')
    requires forall k :: start <= k < |line| ==> line[k] != ','
    requires forall k :: start <= k < |line| ==> lineCopy[k] == line[k]
    requires NUL !in line
    requires columnIndex == CountTo(line, start, ',') < row.Length
    requires row[..] == Overlay(row0, Cells(line, row.Length), columnIndex)
    requires columnsSizes[..] == WidenPrefix(sizes0, Cells(line, row.Length), columnIndex)
    modifies row, columnsSizes, lineCopy
    ensures row[..] == Overlay(row0, Cells(line, row.Length), columnIndex + 1)
    ensures columnsSizes[..] == WidenPrefix(sizes0, Cells(line, row.Length), columnIndex + 1)
  {
    ghost var cells := Cells(line, row.Length);
    assert cells[columnIndex] == Trim(line[start..|line|]) by {
      FieldCell(line, row.Length, start, |line|);
    }
    OverlayStep(row0, cells, columnIndex);
    WidenPrefixStep(sizes0, cells, columnIndex);
    StoreField(row, columnsSizes, columnIndex, lineCopy, start, |line|, line[start..|line|]);
  }

  /** The padding loop: the columns a line does not reach get empty
      strings, which completes the row. */
  method PadRow(row: array<string>, from: nat, ghost before: seq<string>, ghost cells: seq<string>)
    requires from <= row.Length == |before| == |cells|
    requires row[..] == Overlay(before, cells, from)
    requires forall c :: from <= c < row.Length ==> cells[c] == ""
    modifies row
    ensures row[..] == cells
  {
    var columnIndex := from;
    while columnIndex < row.Length
      invariant from <= columnIndex <= row.Length
      invariant row[..] == Overlay(before, cells, columnIndex)
    {
      OverlayStep(before, cells, columnIndex);
      row[columnIndex] := "";
      columnIndex := columnIndex + 1;
    }
    assert cells[..row.Length] == cells;
  }

  // ---------------------------------------------------------------------------
  // Second pass: the table

  /** The table as the values it holds, row by row. */
  ghost function Contents(table: seq<array<string>>): (t: seq<seq<string>>)
    reads table
    ensures |t| == |table| && forall r :: 0 <= r < |t| ==> t[r] == table[r][..]
  {
    seq(|table|, r requires 0 <= r < |table| reads table => table[r][..])
  }

  /** The `malloc` of the table and one `calloc` per row: `rowsNumber`
      distinct rows of `maxColumns` empty cells. */
  method AllocateTable(rowsNumber: nat, maxColumns: nat) returns (table: seq<array<string>>)
    ensures |table| == rowsNumber
    ensures forall r :: 0 <= r < rowsNumber ==> fresh(table[r]) && table[r].Length == maxColumns
    ensures forall r, c :: 0 <= r < rowsNumber && 0 <= c < maxColumns ==> table[r][c] == ""
    ensures forall r, q :: 0 <= r < q < rowsNumber ==> table[r] != table[q]
  {
    table := [];
    for rowIndex := 0 to rowsNumber
      invariant |table| == rowIndex
      invariant forall r :: 0 <= r < rowIndex ==> fresh(table[r]) && table[r].Length == maxColumns
      invariant forall r, c :: 0 <= r < rowIndex && 0 <= c < maxColumns ==> table[r][c] == ""
      invariant forall r, q :: 0 <= r < q < rowIndex ==> table[r] != table[q]
    {
      var row := new string[maxColumns](_ => "");
      table := table + [row];
    }
  }

  /** Every row fits a table of `m` columns and has no NUL. */
  ghost predicate RowsFit(rows: seq<string>, m: nat) {
    forall r :: 0 <= r < |rows| ==> Count(rows[r], ',') + 1 <= m && NUL !in rows[r]
  }

  /** Distinct rows of `m` cells each. */
  ghost predicate Shaped(table: seq<array<string>>, m: nat) {
    && (forall r :: 0 <= r < |table| ==> table[r].Length == m)
    && (forall r, q :: 0 <= r < q < |table| ==> table[r] != table[q])
  }

  /** The first `k` rows hold their lines' cells. */
  ghost predicate FilledUpTo(table: seq<array<string>>, rows: seq<string>, k: nat, m: nat)
    requires k <= |rows| == |table|
    reads table
  {
    forall r :: 0 <= r < k ==> table[r][..] == Cells(rows[r], m)
  }

  /** The rows of a document fit its column count. */
  lemma DocumentRowsFit(buf: string)
    ensures RowsFit(Rows(buf), MaxColumns(Rows(buf)))
  {
    RowsAreLines(buf);
  }

  /** The second pass: allocate the table and the column widths (all 0),
      then fill the rows. The table holds every row's cells and the widths
      are the columns' widths. */
  method FillTable(buf: string, rowsNumber: nat, maxColumns: nat)
    returns (table: seq<array<string>>, columnsSizes: array<nat>)
    requires rowsNumber == |Rows(buf)| && maxColumns == MaxColumns(Rows(buf))
    ensures |table| == rowsNumber && columnsSizes.Length == maxColumns
    ensures fresh(columnsSizes) && forall r :: 0 <= r < rowsNumber ==> fresh(table[r])
    ensures forall r :: 0 <= r < rowsNumber ==> table[r].Length == maxColumns
    ensures Contents(table) == TableOf(Rows(buf), maxColumns)
    ensures columnsSizes[..] == Widths(TableOf(Rows(buf), maxColumns), maxColumns)
  {
    table := AllocateTable(rowsNumber, maxColumns);
    columnsSizes := new nat[maxColumns](_ => 0);
    assert Shaped(table, maxColumns);
    assert columnsSizes[..] == Widths(TableOf(Rows(buf)[..0], maxColumns), maxColumns);
    FillRows(buf, table, columnsSizes);
    assert Rows(buf)[..rowsNumber] == Rows(buf);
  }

  /** The loop of the second pass: tokenize the buffer again and fill one
      row per line, widening the column widths as the cells come in. */
  method FillRows(buf: string, table: seq<array<string>>, columnsSizes: array<nat>)
    requires |table| == |Rows(buf)| && columnsSizes.Length == MaxColumns(Rows(buf))
    requires Shaped(table, columnsSizes.Length)
    requires columnsSizes[..] == Widths(TableOf(Rows(buf)[..0], columnsSizes.Length), columnsSizes.Length)
    modifies table, columnsSizes
    ensures FilledUpTo(table, Rows(buf), |table|, columnsSizes.Length)
    ensures columnsSizes[..] == Widths(TableOf(Rows(buf)[..|table|], columnsSizes.Length), columnsSizes.Length)
  {
    ghost var rows := Rows(buf);
    var m := columnsSizes.Length;
    var rowsNumber := |table|;
    DocumentRowsFit(buf);
    var line, context := StrTok(buf, 0);
    FirstRow(buf, line, context);
    var rowIndex := 0;
    while line.Some? && rowIndex < rowsNumber
      invariant rowIndex <= rowsNumber && context <= |buf|
      invariant line.Some? ==> rows[..rowIndex] + [line.value] + RowsFrom(buf, context) == rows
      invariant line.Some? ==> rowIndex < rowsNumber
      invariant line.None? ==> rowIndex == rowsNumber
      invariant FilledUpTo(table, rows, rowIndex, m)
      invariant columnsSizes[..] == Widths(TableOf(rows[..rowIndex], m), m)
      decreases |buf| - context + (if line.Some? then 1 else 0)
    {
      line, context := FillLine(buf, table, columnsSizes, rows, rowIndex, line.value, context);
      rowIndex := rowIndex + 1;
    }
  }

  /** What the first call of `strtok_r` on the buffer yields: the first row
      followed by the rows after it, or no row at all. */
  lemma FirstRow(buf: string, line: Option<string>, context: nat)
    requires context <= |buf|
    requires line.None? ==> RowsFrom(buf, 0) == []
    requires line.Some? ==> RowsFrom(buf, 0) == [line.value] + RowsFrom(buf, context)
    ensures line.Some? ==> 0 < |Rows(buf)| && Rows(buf)[..0] + [line.value] + RowsFrom(buf, context) == Rows(buf)
    ensures line.None? ==> |Rows(buf)| == 0
  {
    if line.Some? {
      assert Rows(buf)[..0] + RowsFrom(buf, 0) == Rows(buf);
    }
  }

  /** The body of the second loop: fill the row of the current line, then
      ask `strtok_r` for the next line. */
  method FillLine(buf: string, table: seq<array<string>>, columnsSizes: array<nat>, ghost rows: seq<string>,
                  rowIndex: nat, line: string, context: nat)
    returns (next: Option<string>, context': nat)
    requires context <= |buf| && rowIndex <= |rows| == |table|
    requires rows[..rowIndex] + [line] + RowsFrom(buf, context) == rows
    requires RowsFit(rows, columnsSizes.Length) && Shaped(table, columnsSizes.Length)
    requires FilledUpTo(table, rows, rowIndex, columnsSizes.Length)
    requires columnsSizes[..] == Widths(TableOf(rows[..rowIndex], columnsSizes.Length), columnsSizes.Length)
    modifies table[rowIndex], columnsSizes
    ensures context <= context' <= |buf| && rowIndex < |rows|
    ensures next.Some? ==> rowIndex + 1 < |rows| && context < context'
    ensures next.Some? ==> rows[..rowIndex + 1] + [next.value] + RowsFrom(buf, context') == rows
    ensures next.None? ==> rowIndex + 1 == |rows|
    ensures FilledUpTo(table, rows, rowIndex + 1, columnsSizes.Length)
    ensures columnsSizes[..] == Widths(TableOf(rows[..rowIndex + 1], columnsSizes.Length), columnsSizes.Length)
  {
    ghost var rest := RowsFrom(buf, context);
    FillNext(table, columnsSizes, rows, rowIndex, line, rest);
    next, context' := StrTok(buf, context);
    if next.Some? {
      TokenAfter(rows, rows[..rowIndex + 1], rest, next.value, RowsFrom(buf, context'));
    } else {
      assert rows[..rowIndex + 1] + [] == rows;
    }
  }

  /** One pass of the second loop: the current token is row `rowIndex`;
      fill that row from it and take its cells into the widths, leaving
      the other rows untouched. */
  method FillNext(table: seq<array<string>>, columnsSizes: array<nat>, ghost rows: seq<string>,
                  rowIndex: nat, line: string, ghost rest: seq<string>)
    requires rowIndex <= |rows| == |table| && rows[..rowIndex] + [line] + rest == rows
    requires RowsFit(rows, columnsSizes.Length) && Shaped(table, columnsSizes.Length)
    requires FilledUpTo(table, rows, rowIndex, columnsSizes.Length)
    requires columnsSizes[..] == Widths(TableOf(rows[..rowIndex], columnsSizes.Length), columnsSizes.Length)
    modifies table[rowIndex], columnsSizes
    ensures rowIndex < |rows| && rows[..rowIndex + 1] + rest == rows
    ensures FilledUpTo(table, rows, rowIndex + 1, columnsSizes.Length)
    ensures columnsSizes[..] == Widths(TableOf(rows[..rowIndex + 1], columnsSizes.Length), columnsSizes.Length)
  {
    NextRow(rows, rowIndex, line, rest);
    var m := columnsSizes.Length;
    FillRow(table[rowIndex], columnsSizes, line);
    ghost var t := TableOf(rows[..rowIndex], m);
    WidthsSnoc(t, Cells(line, m), m);
    assert t + [Cells(line, m)] == TableOf(rows[..rowIndex + 1], m);
  }

  // ---------------------------------------------------------------------------
  // Writing the table

  /** `fputs` of the fill character `count` times: one run of a border. */
  method WriteRun(file: TextFile, fill: char, count: nat)
    modifies file
    ensures file.content == old(file.content) + Repeat(fill, count)
  {
    var index := 0;
    while index < count
      invariant index <= count
      invariant file.content == old(file.content) + Repeat(fill, index)
    {
      file.Puts([fill]);
      index := index + 1;
    }
  }

  /** The top border and the separators: `+`, then per column a run of
      `width + 2` fill characters with a `+` after every column but the
      last, then `+` and the newline. */
  method WriteBorder(file: TextFile, columnsSizes: array<nat>, fill: char)
    modifies file
    ensures file.content == old(file.content) + BorderLine(old(columnsSizes[..]), fill) + "\n"
  {
    ghost var runs := FillRuns(columnsSizes[..], fill);
    var m := columnsSizes.Length;
    file.Puts("+");
    ghost var pre := file.content;
    assert pre + Joined(runs, 0, '+') == pre;
    for columnIndex := 0 to m
      invariant file.content == pre + Joined(runs, columnIndex, '+')
    {
      JoinedAppend(pre, runs, columnIndex, '+');
      WriteRun(file, fill, columnsSizes[columnIndex] + 2);
      if columnIndex < m - 1 {
        file.Puts("+");
      }
    }
    JoinedAll(runs, '+');
    Enclosed(old(file.content), '+', Joined(runs, m, '+'), '+');
    file.Puts("+\n");
  }

  /** The bottom border: like the top one, but each column's run is double
      when the table has one row and single otherwise. */
  method WriteBottom(file: TextFile, columnsSizes: array<nat>, rowsNumber: nat)
    modifies file
    ensures file.content == old(file.content) + BorderLine(old(columnsSizes[..]), BottomFill(rowsNumber)) + "\n"
  {
    ghost var runs := FillRuns(columnsSizes[..], BottomFill(rowsNumber));
    var m := columnsSizes.Length;
    file.Puts("+");
    ghost var pre := file.content;
    assert pre + Joined(runs, 0, '+') == pre;
    for columnIndex := 0 to m
      invariant file.content == pre + Joined(runs, columnIndex, '+')
    {
      JoinedAppend(pre, runs, columnIndex, '+');
      if rowsNumber == 1 {
        WriteRun(file, '=', columnsSizes[columnIndex] + 2);
      } else {
        WriteRun(file, '-', columnsSizes[columnIndex] + 2);
      }
      if columnIndex < m - 1 {
        file.Puts("+");
      }
    }
    JoinedAll(runs, '+');
    Enclosed(old(file.content), '+', Joined(runs, m, '+'), '+');
    file.Puts("+\n");
  }

  /** One cell of a row line: a space, the value padded to the column's
      width (left-aligned in the header, right-aligned when a data value
      is numeric), a space. */
  method WriteCell(file: TextFile, value: string, width: nat, header: bool)
    modifies file
    ensures file.content == old(file.content) + CellPiece(value, width, header)
  {
    file.Puts(" ");
    if header {
      file.PrintLeft(value, width);
    } else {
      var numeric := IsNumber(value);
      if numeric {
        file.PrintRight(value, width);
      } else {
        file.PrintLeft(value, width);
      }
    }
    file.Puts(" ");
  }

  /** One row line: `|`, the cells with the column bar between them, then
      `|` and the newline. */
  method WriteCellLine(file: TextFile, row: array<string>, columnsSizes: array<nat>, header: bool)
    requires row.Length == columnsSizes.Length
    modifies file
    ensures file.content == old(file.content) + CellLine(old(row[..]), old(columnsSizes[..]), header) + "\n"
  {
    ghost var pieces := CellPieces(row[..], columnsSizes[..], header);
    var m := columnsSizes.Length;
    file.Puts("|");
    ghost var pre := file.content;
    assert pre + Joined(pieces, 0, ColumnBar) == pre;
    for columnIndex := 0 to m
      invariant file.content == pre + Joined(pieces, columnIndex, ColumnBar)
    {
      JoinedAppend(pre, pieces, columnIndex, ColumnBar);
      WriteCell(file, row[columnIndex], columnsSizes[columnIndex], header);
      if columnIndex < m - 1 {
        file.Puts([ColumnBar]);
      }
    }
    JoinedAll(pieces, ColumnBar);
    Enclosed(old(file.content), '|', Joined(pieces, m, ColumnBar), '|');
    file.Puts("|\n");
  }

  /** Row `rowIndex` of `rowsNumber`: its line, then, unless it is the last
      row, a double separator after the header and a single one after a
      data row. */
  method WriteRow(file: TextFile, row: array<string>, columnsSizes: array<nat>, rowIndex: nat, rowsNumber: nat)
    requires row.Length == columnsSizes.Length
    modifies file
    ensures rowIndex < rowsNumber - 1 ==>
              file.content == old(file.content) + CellLine(old(row[..]), old(columnsSizes[..]), rowIndex == 0) + "\n"
                              + BorderLine(old(columnsSizes[..]), SeparatorFill(rowIndex)) + "\n"
    ensures rowIndex >= rowsNumber - 1 ==>
              file.content == old(file.content) + CellLine(old(row[..]), old(columnsSizes[..]), rowIndex == 0) + "\n"
  {
    WriteCellLine(file, row, columnsSizes, rowIndex == 0);
    if rowIndex < rowsNumber - 1 {
      if rowIndex == 0 {
        WriteBorder(file, columnsSizes, '=');
      } else {
        WriteBorder(file, columnsSizes, '-');
      }
    }
  }

  /** The rows loop of the rendering: each row line followed, except after
      the last row, by its separator. */
  method WriteRows(file: TextFile, table: seq<array<string>>, columnsSizes: array<nat>,
                   ghost t: seq<seq<string>>, ghost w: seq<nat>)
    requires forall r :: 0 <= r < |table| ==> table[r].Length == columnsSizes.Length
    requires t == Contents(table) && w == columnsSizes[..]
    modifies file
    ensures file.content == old(file.content) + Unlines(Interleave(RowLines(t, w), Separators(|t|, w), |t|))
  {
    ghost var pre := file.content;
    var rowIndex := 0;
    while rowIndex < |table|
      invariant rowIndex <= |table|
      invariant file.content == pre + Unlines(Interleave(RowLines(t, w), Separators(|t|, w), rowIndex))
    {
      WriteRowAt(file, table, columnsSizes, t, w, rowIndex, pre);
      rowIndex := rowIndex + 1;
    }
    assert file.content == pre + Unlines(Interleave(RowLines(t, w), Separators(|t|, w), |t|));
  }

  /** One turn of the rows loop: row `rowIndex` extends the lines written so
      far by its line and, when it has one, its separator. */
  method WriteRowAt(file: TextFile, table: seq<array<string>>, columnsSizes: array<nat>,
                    ghost t: seq<seq<string>>, ghost w: seq<nat>, rowIndex: nat, ghost pre: string)
    requires forall r :: 0 <= r < |table| ==> table[r].Length == columnsSizes.Length
    requires t == Contents(table) && w == columnsSizes[..] && rowIndex < |table|
    requires file.content == pre + Unlines(Interleave(RowLines(t, w), Separators(|t|, w), rowIndex))
    modifies file
    ensures file.content == pre + Unlines(Interleave(RowLines(t, w), Separators(|t|, w), rowIndex + 1))
  {
    RenderStep(pre, RowLines(t, w), Separators(|t|, w), rowIndex);
    assert table[rowIndex][..] == t[rowIndex];
    WriteRow(file, table[rowIndex], columnsSizes, rowIndex, |table|);
  }

  /** The rendering: top border, the rows, bottom border. The file receives
      exactly the table's lines. */
  method Render(file: TextFile, table: seq<array<string>>, columnsSizes: array<nat>)
    requires forall r :: 0 <= r < |table| ==> table[r].Length == columnsSizes.Length
    modifies file
    ensures file.content == old(file.content) + Unlines(TableLines(old(Contents(table)), old(columnsSizes[..])))
  {
    ghost var t, w := Contents(table), columnsSizes[..];
    TableText(file.content, t, w);
    WriteBorder(file, columnsSizes, '=');
    WriteRows(file, table, columnsSizes, t, w);
    WriteBottom(file, columnsSizes, |table|);
  }

  // ---------------------------------------------------------------------------
  // The whole conversion

  /** `processCSV` on the file's bytes: refuse a file over the size limit
      with status 3; otherwise terminate the buffer with a NUL, count rows
      and columns, write an empty file when there are none, and else fill
      the table and render it into a fresh file. The result is status 0
      and the formatted document. */
  method ProcessCsv(input: string) returns (status: nat, output: Option<string>)
    ensures |input| > MaxFileSize ==> status == 3 && output == None
    ensures |input| <= MaxFileSize ==> status == 0 && output == Some(FormatCsv(input))
  {
    if |input| > MaxFileSize {
      return 3, None;
    }
    var buffer := input + [NUL];
    RowsTerminated(input);
    var rowsNumber, maxColumns := CountShape(buffer);
    if rowsNumber == 0 || maxColumns == 0 {
      var textFile := new TextFile();
      return 0, Some(textFile.content);
    }
    var table, columnsSizes := FillTable(buffer, rowsNumber, maxColumns);
    ghost var t := TableOf(Rows(input), maxColumns);
    assert Contents(table) == t && columnsSizes[..] == Widths(t, maxColumns);
    var textFile := new TextFile();
    Render(textFile, table, columnsSizes);
    assert textFile.content == Unlines(TableLines(t, Widths(t, maxColumns)));
    return 0, Some(textFile.content);
  }
}
