# CSV to box table

A model of the converter in `src/csv_processor.c`. `processCSV` reads a comma-separated file and writes it as a text table drawn with box characters:

- a double top border;
- the header row, left-aligned;
- a double separator after the header;
- data rows with single separators between them, where numeric values are right-aligned and other values left-aligned;
- a closing border, which is double only when the table has just one row.

Every column is as wide as its longest trimmed value. Rows with fewer fields are padded with empty cells.

The project has four modules:

- `Text` (`text.dfy`) holds the string vocabulary the converter relies on: C strings ending at a NUL, counting, splitting and joining at a delimiter, `isspace` trimming, `printf` padding, and newline-terminated lines.
- `CsvSpec` (`csv_spec.dfy`) defines the conversion as functions: `Numeric`, `Rows` (the `strtok_r` tokens), `MaxColumns`, `Cells`, `TableOf`, `Widths`, `TableLines` and `FormatCsv`. It also proves what the format promises about them.
- `Output` (`text_file.dfy`) is the output stream: a `TextFile` class whose `content` grows with each `fputs` or `fprintf`.
- `CsvProcessor` (`csv_processor.dfy`) is the converter as it runs. It includes:
  - the classifier and comma-counting loops;
  - `strtok_r` over the input buffer;
  - the first pass, which counts rows and columns;
  - the second pass, which cuts each line inside an `array<char>` copy (writing NULs over its commas and after each trimmed value) into `array<string>` rows and an `array<nat>` of column widths;
  - the rendering loops, which write the top border, the rows, the separators and the bottom border.

  Each method is proved against a definition in `Text` or `CsvSpec`: the C-string helpers (`Strlen`, `Strdup`, `CopyLine`, the trim scans, `WriteRun`, `AllocateTable`) against buffer facts and `Text` functions, and the passes and the rendering against the `CsvSpec` functions. `ProcessCsv` is proved to produce `FormatCsv(input)`.

## Model

| member | source | states |
|---|---|---|
| CsvSpec.Rows | src/csv_processor.c:96-110 | the reference definition of the `strtok_r` tokens: the text before the first NUL cut at newlines with the empty pieces dropped, so every row is non-empty |
| CsvSpec.Cells | src/csv_processor.c:185-250 | the reference definition of one line's cells: its comma-separated fields trimmed, then empty cells, exactly `m` in all |
| CsvSpec.FormatCsv | src/csv_processor.c:113-367 | the reference definition of the output: empty for a document without rows, otherwise the table's lines, so the output is empty or ends in a newline |
| CsvProcessor.IsNumber | src/csv_processor.c:9-27 | the result is true exactly when the value is non-empty, holds only digits and dots, and has at most one dot (`Numeric`) |
| CsvSpec.NumericExamples | tests/test_all.c:79-84 | `123` and `123.45` are numeric; `abc`, the empty string, `12.34.56` and `-5` are not; a lone `.` is numeric |
| CsvProcessor.CountCommas | src/csv_processor.c:30-39 | the result is the number of commas in the line |
| CsvSpec.CountCommasExamples | tests/test_all.c:91-94 | the empty string has 0 commas, `a,b,c` and `a,,c` have 2, `,,,` has 3 |
| Text.CountIsMultiplicity | src/csv_processor.c:30-39 | the comma count is the multiplicity of `,` in the line's multiset of characters |
| CsvProcessor.StrTok | src/csv_processor.c:161 | one `strtok_r(…, "\n", …)` step: no token exactly when no rows remain; otherwise the token is the first remaining row and the rest follow after the returned position, which has moved forward |
| CsvSpec.RowsTerminated | src/csv_processor.c:78 | the NUL appended after the file's bytes does not change the rows |
| CsvSpec.RowsAreLines | src/csv_processor.c:96-109 | every row is non-empty and holds no newline and no NUL |
| CsvSpec.RowsOfNewlines | src/csv_processor.c:96-113 | a file made only of newlines (the empty file included) has no rows, so it takes the empty-output branch |
| CsvSpec.RowsOfBlankInput | src/csv_processor.c:113-123 | the empty file and the file `\n\n` have no rows |
| CsvSpec.RowsOfJoin | src/csv_processor.c:96-109 | the rows of newline-joined pieces are exactly the non-empty pieces, in order |
| CsvSpec.RowsOfLines | src/csv_processor.c:96-109 | reading back a file of non-empty newline-terminated lines gives those lines |
| CsvSpec.RowsSkipBlankLines | src/csv_processor.c:96-109 | a leading newline and a blank line produce no row |
| CsvSpec.RowsOfSample | src/csv_processor.c:92-110 | the sample document `name,age`, `Alice,30`, `Bob,7` has those three rows |
| CsvSpec.MaxColumns | src/csv_processor.c:102-107 | the column count bounds every row's comma count plus one and is attained by some row; it is 0 exactly when there are no rows |
| CsvProcessor.CountShape | src/csv_processor.c:83-110 | the first pass counts exactly the rows of the document, and the largest field count is `MaxColumns` of those rows |
| CsvProcessor.TrimBounds | src/csv_processor.c:196-204 | the forward scan stops where the left trim ends; the backward scan (from `strlen`) stops just after the trimmed value |
| CsvProcessor.SkipLeading | src/csv_processor.c:197-199 | the left trim loop passes only whitespace and stops at the first non-space or at the terminating NUL |
| CsvProcessor.SkipTrailing | src/csv_processor.c:200-204 | the right trim loop passes only trailing whitespace, never moves before the value's start, and stops after a non-space |
| CsvProcessor.ExtractTrimmed | src/csv_processor.c:196-208 | the value copied out is `Trim` of the field; the only character of the copy that changes is the NUL written just after the value |
| CsvProcessor.Strlen | src/csv_processor.c:201 | the length counts the characters before the next NUL (or the buffer's end), none of which is a NUL |
| CsvProcessor.Strdup | src/csv_processor.c:208 | the copy is the buffer's characters from the start up to the next NUL |
| CsvProcessor.StoreField | src/csv_processor.c:191-213 | the row gains the trimmed field as cell `columnIndex`; that column's width becomes the larger of its old width and the value's length; the rest of the line copy is unchanged |
| CsvProcessor.CutAtComma | src/csv_processor.c:190-217 | at a comma, the field before it becomes the next cell and the width is widened; the next field starts after the comma |
| CsvProcessor.CutStep | src/csv_processor.c:190-218 | one turn of the comma loop: at a comma the field before it is stored and the next field starts after the comma, with the cell index one higher; any other character leaves both alone; the loop's state (filled cells, widths, the copy past `start`) is kept |
| CsvProcessor.CutFields | src/csv_processor.c:185-219 | after the comma loop, every comma has been read, exactly the cells before the last field are filled with the line's trimmed fields, and their columns' widths take them in |
| CsvProcessor.StoreLastField | src/csv_processor.c:223-244 | the text after the last comma, trimmed, becomes the next cell and widens its column |
| CsvProcessor.PadRow | src/csv_processor.c:246-250 | the columns the line does not reach get empty strings, completing the row |
| CsvProcessor.FinishRow | src/csv_processor.c:223-250 | after the last field and the padding, the row holds the line's cells and every width has taken in its column's cell |
| CsvProcessor.CopyLine | src/csv_processor.c:165-183 | the copy is a fresh buffer holding the line's characters followed by a NUL |
| CsvProcessor.FillRow | src/csv_processor.c:165-250 | one line of the second pass: the row equals `Cells(line, m)` and every width is widened by that row's cell |
| CsvSpec.CellsOfRow | src/csv_processor.c:185-250 | a row has commas plus one fields, which rejoin into the row; cell `j` is the `j`-th field trimmed; every cell past the row's fields is empty |
| CsvSpec.CellsFrom | src/csv_processor.c:185-250 | a cell holds only characters of its row |
| CsvSpec.CellsKeepEmptyFields | src/csv_processor.c:185-219 | `a,,c` gives the cells `a`, empty, `c` |
| CsvSpec.CellsTrimSpaces | src/csv_processor.c:196-205 | ` x , y ` gives the cells `x` and `y` |
| CsvSpec.CellsPadShortRow | src/csv_processor.c:246-250 | `a` in a three-column table gives `a` and two empty cells |
| Text.TrimIsCore | src/csv_processor.c:196-205 | the trimmed value is a contiguous slice of the field, has no whitespace at either end, and is empty exactly when the field is all whitespace |
| Text.TrimIdempotent | src/csv_processor.c:196-205 | trimming a trimmed value changes nothing |
| Text.JoinSplit | src/csv_processor.c:185-219 | cutting a line at its commas and rejoining the pieces gives the line back |
| Text.SplitJoin | src/csv_processor.c:185-219 | cutting a join of comma-free pieces gives back the pieces |
| Text.SplitLength | src/csv_processor.c:185-244 | a line has one more field than it has delimiters |
| CsvSpec.TableOf | src/csv_processor.c:125-145 | the table has one row per line, each of exactly `m` cells |
| CsvSpec.ColumnWidth | src/csv_processor.c:210-213 | a column's width bounds every cell of the column (header included), is attained by one of them, and is 0 for no rows |
| CsvSpec.Widths | src/csv_processor.c:147-157 | there is one width per column, bounding every cell of that column |
| CsvSpec.WidthsSnoc | src/csv_processor.c:210-213 | measuring one more row widens each column by that row's cell |
| CsvSpec.WidthsAttained | src/csv_processor.c:210-213 | every width equals the length of some cell of its column |
| CsvProcessor.AllocateTable | src/csv_processor.c:125-145 | there are `rowsNumber` fresh, distinct rows of `maxColumns` cells, each cell the empty string |
| CsvProcessor.FillRows | src/csv_processor.c:160-255 | the second pass's loop fills every row with its line's cells, leaving the widths equal to the table's `Widths` |
| CsvProcessor.FillLine | src/csv_processor.c:164-254 | one turn of the second loop fills the current row and fetches the next token, which is the next row |
| CsvProcessor.FillNext | src/csv_processor.c:165-252 | the current token is row `rowIndex`; after filling, rows up to and including it hold their cells and the widths are those of that prefix of the table |
| CsvProcessor.FillTable | src/csv_processor.c:125-255 | after allocation and the second pass, the table holds `TableOf(Rows(buf), maxColumns)` and the widths are its `Widths` |
| CsvSpec.SampleTable | src/csv_processor.c:83-255 | the sample document becomes a two-column table with the cells as written and widths 5 and 3 |
| CsvProcessor.WriteRun | src/csv_processor.c:277-279 | the file gains `count` copies of the fill character |
| CsvProcessor.WriteBorder | src/csv_processor.c:274-284 | the file gains `+`, a run of `width + 2` fill characters per column with a `+` between runs, then `+` and a newline (`BorderLine`) |
| CsvProcessor.WriteBottom | src/csv_processor.c:351-367 | the file gains the bottom border, whose fill is `=` for a one-row table and `-` otherwise |
| CsvProcessor.WriteCell | src/csv_processor.c:294-312 | the file gains a space, the value padded to the column width (right-aligned only for a numeric data value), then a space |
| CsvProcessor.WriteCellLine | src/csv_processor.c:288-319 | the file gains `|`, the cells separated by the column bar, `|` and a newline (`CellLine`) |
| CsvProcessor.WriteRow | src/csv_processor.c:286-349 | row `r` writes its line and, unless it is the last row, a separator: `=` after the header, `-` after a data row |
| CsvProcessor.WriteRows | src/csv_processor.c:286-349 | the rows loop writes every row line in order, each but the last followed by its separator |
| CsvProcessor.WriteRowAt | src/csv_processor.c:287-348 | one turn of the rows loop: the file gains row `rowIndex`'s line and, unless it is the last row, its separator, extending the interleaved lines by one row |
| CsvProcessor.Render | src/csv_processor.c:274-367 | the file gains exactly the table's lines: top border, rows and separators, bottom border |
| Output.TextFile.constructor | src/csv_processor.c:258 | the newly opened output file is empty |
| Output.TextFile.Puts | src/csv_processor.c:275 | the file gains the string |
| Output.TextFile.PrintLeft | src/csv_processor.c:300 | the file gains the value left-aligned in `width` columns |
| Output.TextFile.PrintRight | src/csv_processor.c:305 | the file gains the value right-aligned in `width` columns |
| Text.AlignLeft | src/csv_processor.c:300 | the result is `max(width, length)` long, starts with the value and is filled with spaces after it |
| Text.AlignRight | src/csv_processor.c:305 | the result is `max(width, length)` long, ends with the value and is filled with spaces before it |
| Text.Repeat | src/csv_processor.c:277-279 | the result is `n` copies of the character |
| CsvSpec.CellTextShape | src/csv_processor.c:297-310 | a padded cell is exactly the column width; header and non-numeric values sit at the left with spaces after them, numeric data values at the right with spaces before them |
| CsvSpec.CellTextChars | src/csv_processor.c:297-310 | a padded cell holds only spaces and the value's characters |
| CsvSpec.LinesAligned | src/csv_processor.c:274-349 | every column takes `width + 2` characters, so each row line is as long as each border |
| CsvSpec.CellLineColumns | src/csv_processor.c:288-319 | when no value holds the column bar, cutting a row line's body at the bars gives back one piece per column |
| CsvSpec.BorderColumns | src/csv_processor.c:274-284 | cutting a border's body at its `+` junctions gives back the fill runs, one per column |
| CsvSpec.Layout | src/csv_processor.c:274-367 | a table of `n` rows has `2n + 1` lines: the double top border, row `r` at line `2r + 1`, a double separator after the header and single separators between data rows, and a bottom border that is double only for one row |
| CsvSpec.RenderStep | src/csv_processor.c:286-349 | writing row `k` extends the output by its line and, when it has one, its separator |
| CsvSpec.TableText | src/csv_processor.c:274-367 | the table's text is the top border's line, then the interleaved rows and separators, then the bottom border's line |
| CsvSpec.LinesNewlineFree | src/csv_processor.c:274-367 | when no cell holds a newline, no line of the table does |
| CsvSpec.TableShape | src/csv_processor.c:125-157 | a document's table has one row per line and `MaxColumns` cells per row, the widths bound every cell, and a document with rows has at least one column |
| CsvSpec.EmptyOutput | src/csv_processor.c:113-123 | the output is empty exactly when the document has no rows |
| CsvSpec.OutputLines | src/csv_processor.c:274-367 | the output of a document with `n` rows splits into the table's `2n + 1` newline-terminated lines, as `Layout` describes |
| Text.UnlinesSplit | src/csv_processor.c:274-367 | cutting newline-terminated newline-free lines at the newlines gives the lines back, plus an empty tail |
| CsvProcessor.ProcessCsv | src/csv_processor.c:49-382 | an input over 100 MiB gives status 3 and no output; any other input gives status 0 and exactly `FormatCsv(input)` as the output file's content |

## Left out

- Opening the input file, `fseek`/`ftell`, `fread` and their failures are not modelled; the file's bytes are the input parameter. This covers status 1 for an input that does not open, status 3 for a negative `ftell` or a short read, and the closes (src/csv_processor.c:52-77).
- Opening the output file is not modelled as failing, so status 1 is never returned, either on the empty-table path or after the table (src/csv_processor.c:116-118, 258-272). Paths are not modelled.
- Memory allocation failures (status 2) and the `free` calls are not modelled (src/csv_processor.c:66-70, 83-89, 125-157, 165-183, 369-380). Dafny's allocation does not fail, and the memory is reclaimed.
- CsvProcessor.IsNumber: takes a value, so the `NULL` argument case (src/csv_processor.c:11, tests/test_all.c:82) is not modelled.
- CsvProcessor.WriteCellLine: every cell is filled in the second pass, so the fallback for a `NULL` cell (src/csv_processor.c:291) is never reached and is not modelled.
- CsvProcessor.StrTok: the model reads the buffer without writing the NULs that `strtok_r` leaves at each line's end. Only the tokens and the resume position are modelled; each line's fields are then cut inside the line's own copy, as the source does.
- The second copy of the buffer for the counting pass (`bufferForCount`, src/csv_processor.c:83-89) is implicit. Because `StrTok` does not write into the buffer, both passes read the same value.
- Row and column counts, field lengths and widths are modelled as unbounded `nat`. The 100 MiB cap keeps every such value far below the range of the source's `int` and `size_t`, so wrap-around cannot occur. For the same reason, the `int` cast of a width passed to `%*s` is not modelled.
- The column bar is the three-byte UTF-8 sequence for U+2502 in the source. Here it is the single character `\U{2502}`. Input characters stand for bytes, and `isspace`/`isdigit` are those of the C locale on ASCII.
- CsvProcessor.AllocateTable: `calloc` leaves the cells `NULL`; the model starts them as empty strings. Every cell is overwritten in the second pass before it is read.
- The table itself (an array of rows in C) is a `seq` of row arrays, since the source never reassigns it after allocation. Each row is an `array<string>` and the widths are an `array<nat>`.
- `src/main.c` (the command-line wrapper) and the file-comparison helpers of `tests/test_all.c` are not part of this model.
- The row count follows the code: `strtok_r` skips blank lines and the newline runs at either end, so such lines produce no rows and no separators.
