# Courier manifest, modelled in Dafny

`script.js` drives a one-page courier manifest tool. An operator picks one
of six couriers, then scans or pastes package lines (`id | name | phone |
address | amount`, or the same with a tab, `;` or `,` between the fields).
Each line becomes a row of an editable table. The page keeps a running
total of the amounts. A single row can be added by hand, and rows can be
edited, deleted or cleared. The table can be exported as CSV. For the
selected courier the tool can print a manifest, or export a PDF manifest
with two hand-drawn signatures.

The Dafny project models what sits under the page's DOM plumbing:

- `wrappers.dfy`: `Option` and `Result`.
- `text.dfy`: the JavaScript string operations the script relies on.
  - `trim` uses the ECMAScript whitespace set.
  - Also covered: `split` on one character, `join`, `replace(/[^\d]/g, '')`, `Number` of a digit string, `String` of an integer, and `slice(0, n)`.
- `cells.dfy`: `sanitizeNumber` and `escapeHtml`, plus the browser's decoding of the escaped markup.
- `scan_parser.dfy`: how `handleAddScans` cuts the scanner text into lines, each line into pieces, and the pieces into a package record.
- `rows.dfy`: a table row as the texts of its cells, the total over rows, and what adding, editing, deleting and renumbering do to the rows.
- `partition.dfy`: the rows of one courier, the lines the print view and the PDF collect from them, and the PDF total.
- `csv.dfy`: the records `exportCSV` builds and their quoting. It also has a reader for the format, which shows the export loses nothing.
- `pdf.dfy`: the document `exportPDF` hands to the PDF library, and the file name it saves under.
- `signature.dfy`: a signature pad. It is a class over an RGBA pixel array with the `drawing` flag and the strokes. It also has the blank scan of `getSignatureDataURL`.
- `session.dfy`: the page's state as a class.
  - State: the rows (`tbody`), `rowCount`, `selectedCourier`, the scanner text and the total on display.
  - One method per button or listener.
  - Between operations the class keeps the invariant `Valid()`:
    - `rowCount` equals the number of rows.
    - The row at position j shows index j + 1.
    - Every amount cell holds a numeral.
    - The total on display is the sum of the amounts.

Conventions of the model:

- An aborting `alert` becomes a returned notice or a `Failure` value.
- The `confirm` dialog becomes a boolean parameter.
- The manifest date, the current ISO timestamp and the canvas rasteriser's output are parameters.

## Model

| member | source | states |
|---|---|---|
| Text.Trim | script.js:89 | the trimmed text neither starts nor ends with whitespace |
| Text.TrimEmpty | script.js:89-90 | a text trims to empty exactly when every character is whitespace, which is when `handleAddScans` reports an empty scanner |
| Text.TrimTrim | script.js:93 | trimming is idempotent and adds no character |
| Text.JoinSplit | script.js:93 | joining the pieces of a split with the separator gives the text back |
| Text.SplitJoin | script.js:96-101 | splitting a join of separator-free pieces gives the pieces back |
| Text.SplitPieces | script.js:93 | no piece of a split contains the separator |
| Text.SplitCount | script.js:101 | a split gives one more piece than the text has separators |
| Text.NatToStringValue | script.js:148 | the numeral `String(n)` writes for an amount reads back as n |
| Text.ValueNatToString | script.js:167 | writing the value of a numeral gives the numeral back |
| Text.DigitsConcat | script.js:108 | the digits of a concatenation are the digits of its parts, in order, so every digit is kept where it stood ("7 500" gives "7500") |
| Text.DigitsChar | script.js:108 | a single character is kept exactly when it is an ASCII digit |
| Text.DigitsOfDigits | script.js:108 | stripping non-digits leaves a digit string unchanged |
| Cells.SanitizeNumber | script.js:167 | the result is a numeral: digits only, no leading zero unless it is "0" |
| Cells.SanitizeKeepsValue | script.js:167 | sanitizing keeps the number the text's digits spell |
| Cells.SanitizeFixesNumerals | script.js:167 | a numeral is left unchanged |
| Cells.SanitizeIdempotent | script.js:167 | sanitizing twice equals sanitizing once |
| Cells.EscapeHtml | script.js:168 | the escaped text contains no raw `<`, `>` or `"` |
| Cells.EscapePlain | script.js:168 | a text without `&`, `<`, `>`, `"` is copied unchanged |
| Cells.EscapeConcat | script.js:168 | escaping works character by character, so every other character is copied in place |
| Cells.EscapeRoundTrip | script.js:142-149 | decoding the four entities `escapeHtml` writes gives back the original text: `UnescapeHtml(EscapeHtml(s)) == s` |
| ScanParser.ScanLines | script.js:93 | there are never more scan lines than pieces of the line-feed split, which by Text.SplitCount is the number of line feeds plus one |
| ScanParser.ScanLinesOfLines | script.js:93 | non-blank, trimmed lines joined by line feeds are exactly the scan lines of the text, one per line and in input order |
| ScanParser.NonEmptyConcat | script.js:93 | the blank-line filter works piece by piece: the kept pieces of a concatenation are those of its parts, in order |
| ScanParser.NonEmptyOne | script.js:93 | a single piece is kept exactly when it is non-empty |
| ScanParser.NonEmptyAll | script.js:93 | a list without empty strings is kept whole |
| ScanParser.TrimmedLinesKept | script.js:93 | neither dropping a final carriage return nor trimming changes a list of non-blank trimmed lines |
| ScanParser.TrimmedKeepsCR | script.js:93 | a non-blank trimmed line does not end in a carriage return, so the `\r?\n` split leaves it whole |
| ScanParser.ScanLinesShape | script.js:93 | every scan line is non-empty, already trimmed and holds no line feed |
| ScanParser.ScanLinesNonEmpty | script.js:89-93 | scanner text that is not blank after trimming gives at least one line |
| ScanParser.Pieces | script.js:96-102 | a line always gives at least one piece, so the id field is always read from the line |
| ScanParser.EntryOf | script.js:103-110 | the first piece is the id; a missing second, third or fourth piece leaves that field empty, a missing fifth gives amount 0, and pieces after the fifth are ignored |
| ScanParser.PiecesByDelimiter | script.js:96-102 | a line is split on a pipe character if it has one, else on a tab, else on `;`, else on `,` when that gives at least five pieces, and otherwise stays whole; the pieces are trimmed |
| ScanParser.UndelimitedLine | script.js:97-107 | a line without a delimiter becomes a record holding only its id, with empty fields and amount 0 |
| ScanParser.JoinedLine | script.js:96-108 | fields joined by the delimiter the rule picks parse back into those fields trimmed; pieces past the fifth are ignored and missing ones are `''` |
| ScanParser.PipeLine | script.js:95-108 | the primary format (id, name, phone, address and amount joined by pipe characters) parses into the five trimmed fields |
| ScanParser.PipeFields | script.js:95-108 | any five pipe-free fields joined by pipe characters give the entry of their trimmed values, the amount read from the digits of the fifth |
| ScanParser.AmountIsDigitsOfFifth | script.js:108 | the amount is the number the digits of the fifth piece spell, and 0 when that piece is missing, empty or has no digits |
| Rows.NewRow | script.js:139-151 | the new row carries the given index, courier and texts; its amount cell is a numeral worth the amount |
| Rows.TotalOf | script.js:180-185 | no row's amount exceeds the total |
| Rows.Edited | script.js:153-158 | an edit never touches the index or courier cell, and every editable cell other than the edited one keeps its text; a text cell shows the text as typed, and an amount edit leaves a numeral worth what the typed text's digits spell |
| Rows.SanitizedCell | script.js:155-157 | the amount cell that `sanitizeNumber` writes holds a numeral worth what the typed text adds to a total |
| Rows.NewRowsAt | script.js:94-112 | row k of a batch is the row of record k, numbered base + k + 1 |
| Rows.NewRowsSnoc | script.js:111 | one more record appends its row, numbered after the others |
| Rows.DeleteRenumbers | script.js:160-161 | after deleting and renumbering, the rows are numbered 1..n-1, rows before the deleted one are untouched and the later ones move up one place in order |
| Rows.TotalConcat | script.js:180-185 | the total of two runs of rows is the sum of their totals |
| Rows.TotalWithout | script.js:161 | deleting a row lowers the total by exactly that row's amount |
| Rows.TotalRenumbered | script.js:171-177 | renumbering does not change the total |
| Rows.TotalUpdate | script.js:153-158 | replacing one row changes the total by the difference of the two amounts |
| Partition.Filter | script.js:254-256 | every kept row belongs to the courier, and no more rows are kept than exist |
| Partition.Others | script.js:256 | no row of the rest belongs to the courier |
| Partition.KeptOrder | script.js:254-266 | the courier's rows are an in-order subsequence of the table: kept row i is the row at the i-th kept position, and the positions strictly increase |
| Partition.KeptPositions | script.js:256 | a position is kept exactly when its row's courier equals the selected courier |
| Partition.EmptyPartition | script.js:267 | the partition is empty exactly when no row belongs to the courier |
| Partition.PrintLines | script.js:253-266 | the print lines are numbered 1..k without gaps and are no more than the rows |
| Partition.PdfLines | script.js:288-301 | on a numbered table every PDF line's number is a position of the whole manifest |
| Partition.PrintLinesSpec | script.js:257-258 | print line i is kept row i, numbered i + 1 |
| Partition.PdfLinesSpec | script.js:292-299 | PDF line i is kept row i, with its own index cell |
| Partition.PrintVersusPdf | script.js:258 | print and PDF hold the same rows in the same order; print numbers them 1..k, while the PDF shows each row's position in the whole manifest |
| Partition.PdfTotal | script.js:331-332 | the PDF total is the total of the courier's rows |
| Partition.CourierTotalSplit | script.js:331-332 | the courier's total and the other couriers' total add up to the manifest total, so the PDF total never exceeds it |
| Partition.CollectPrintLines | script.js:253-266 | the loop yields the courier's rows in order, numbered from 1 |
| Partition.CollectPdfLines | script.js:288-301 | the loop yields the courier's rows in order, with their index cells |
| Partition.SumLines | script.js:331-332 | the loop sums the amounts of the PDF lines |
| Csv.BuildTable | script.js:198-209 | the header comes first; record i + 1 is the position i + 1 and the six cell texts of row i |
| Csv.TableIs | script.js:198-209 | a table shaped like that is the export table of the rows |
| Csv.TableShape | script.js:198-209 | the export has one record more than rows; every record has seven fields, the first being its position below the header |
| Csv.QuoteLength | script.js:210 | a quoted field is the cell plus the two outer quotes and one extra quote per inner quote, and it holds twice the cell's quotes plus two |
| Csv.ReadDoubled | script.js:210 | undoubling a doubled cell up to the closing quote gives the cell back |
| Csv.ReadEncodedRecord | script.js:210 | an encoded record reads back as exactly its fields |
| Csv.CsvRoundTrip | script.js:210 | reading the encoded text gives the table back, whatever quotes, commas or line feeds its cells hold |
| Csv.ExportRoundTrip | script.js:197-210 | the exported text reads back as exactly the exported records |
| PdfExport.UnderscoreRuns | script.js:349 | the replacement leaves no whitespace and never lengthens the text |
| PdfExport.UnderscoreRunsPlain | script.js:349 | a name without whitespace is unchanged |
| PdfExport.UnderscoreRunsIdempotent | script.js:349 | replacing twice equals replacing once |
| PdfExport.UnderscoreRunsStep | script.js:349 | a whole run of whitespace after a word becomes one `_` |
| PdfExport.UnderscoreWords | script.js:349 | words separated by spaces come out separated by `_` |
| PdfExport.FileName | script.js:349 | the name starts with `manifest_`, ends with `.pdf`, and is at most 24 characters longer than the courier's name |
| PdfExport.FileNameNoWhitespace | script.js:349 | the name has no whitespace when the timestamp has none |
| Signature.WhiteIsBlank | script.js:219 | a white-filled canvas is blank and gives no signature |
| Signature.InkIsSeen | script.js:244 | a canvas with a black pixel is not blank |
| Signature.SignaturePad.constructor | script.js:216-221 | a new pad of positive width and height is white everywhere, not drawing and has no strokes |
| Signature.SignaturePad.FillWhite | script.js:219 | every byte of the canvas becomes 255 |
| Signature.SignaturePad.PenDown | script.js:227 | drawing starts and a new stroke begins at the point |
| Signature.SignaturePad.PenMove | script.js:228 | only while drawing, the last stroke is extended and the covered pixels are painted black; otherwise nothing changes |
| Signature.SignaturePad.PenUp | script.js:229 | drawing stops and the strokes are kept |
| Signature.SignaturePad.Clear | script.js:233 | the canvas is white and blank again; the drawing flag and the strokes are unchanged |
| Signature.SignaturePad.Capture | script.js:236-247 | the scan with its early exit gives exactly the blank-test result on the canvas |
| Session.BatchRows | script.js:93-112 | non-blank scanner text gives at least one row, one per line; each belongs to the courier, is numbered on from the earlier rows and carries its line's fields and amount |
| Session.Session.constructor | script.js:23-25 | the session starts with no rows, counter 0, no courier selected and total 0 |
| Session.Session.SelectCourier | script.js:68-75 | the named courier becomes the selection |
| Session.Session.RenderCouriers | script.js:62-63 | the first courier is selected by default |
| Session.Session.SetScanner | script.js:81 | the scanner box holds the given text |
| Session.Session.ClearScanner | script.js:35 | the scanner text is emptied |
| Session.Session.AddRow | script.js:139-164 | the counter goes up by one and a row carrying it is appended; the index invariant is kept |
| Session.Session.RecalcTotals | script.js:180-188 | the total becomes the sum of the rows' digit-normalised amounts |
| Session.Session.AppendRows | script.js:94-113 | one row per record is appended, in order, numbered on from the earlier rows |
| Session.Session.AddScans | script.js:88-116 | blank input, and then a missing courier, abort with rows and scanner unchanged; otherwise one row per scan line is appended for the selected courier, the scanner is cleared and the total stays correct |
| Session.Session.QuickAdd | script.js:119-136 | a missing courier, and then a blank id, abort with rows unchanged; otherwise exactly one row with the trimmed texts is appended for the selected courier |
| Session.Session.EditCell | script.js:153-158 | only the edited cell changes; an amount cell holds `sanitizeNumber` of its text, and the total stays correct |
| Session.Session.RebuildIndices | script.js:171-177 | every row takes its position as index, and the counter equals the number of rows |
| Session.Session.Delete | script.js:160-162 | the row goes, the rest are renumbered in order, and the total drops by exactly its amount |
| Session.Session.ClearTable | script.js:191-194 | when confirmed the table is empty with counter and total 0; otherwise nothing changes |
| Session.Session.ExportCsv | script.js:197-213 | the file is `manifest.csv`, and its text reads back as the header and one record per row |
| Session.Session.Print | script.js:250-282 | no courier, or no row for it, gives no view; otherwise the view lists the courier's rows in order, numbered 1..k |
| Session.Session.ExportPdf | script.js:285-349 | no courier, or no row for it, gives no document; otherwise the document has the courier's rows with their own index, their total, a signature for each pad that is not blank, and the file name |

## Left out

- DOM construction and event wiring: the markup, CSS classes, focus handling and listener registration. Listeners are methods of the session and the pads.
- `handlePaste` (script.js:78-85): it reads the clipboard, which is asynchronous browser I/O. `SetScanner` stands for any way text reaches the scanner box.
- `alert`, `confirm` and `window.print`. Aborts are returned values and the confirmation is a parameter.
- The print view's meta line and markup, and the PDF layout: jsPDF and autoTable calls, fonts, coordinates, rectangles and `addImage`. Only the data they receive is modelled.
- Blob and object-URL downloading. `ExportCsv` returns the file name and text.
- `Intl.NumberFormat` locale grouping of the displayed totals. The total is kept as a number.
- Canvas rasterisation and event coordinates. `PenMove` takes the set of pixels the stroke covers as a parameter.
- `toDataURL` PNG encoding. A signature image is its pixel buffer.
- `Date`, `toLocaleString` and `toISOString`. The date text and the ISO timestamp are parameters.
- Session.Session.QuickAdd: the amount is a natural number parameter. `Number(qSum)` is not parsed, so NaN, negative and fractional input (rendered as 0 or as written by `addRow`) are not modelled.
- Cells.EscapeRoundTrip: the cells are read back through `innerText` (script.js:183, 202-207, 255-263, 290-298), which collapses whitespace runs, turns a lone carriage return into a line feed and drops NUL characters. This normalisation is not modelled for any cell; a row holds the texts it was given.
- Rows.NewRow: amounts above 2^53 are not modelled. JavaScript would write those in rounded or exponent form; the model's integers are unbounded, so `String(Number(digits))` is exact.
- Cells.SanitizeNumber: its `isNaN` branch is not modelled. That branch cannot be taken, since a digit string always converts to a number. Digit strings worth 2^53 or more are not modelled either: JavaScript rounds them and writes 10^21 and above in exponent form (1 followed by 22 zeros gives `1e+22`, which sanitizes again to `122`). Cells.SanitizeNumber, Cells.SanitizeKeepsValue and Cells.SanitizeIdempotent hold only below that bound.
- Session.Session.EditCell: the browser's `innerText` whitespace normalisation of edited cells is not modelled. A cell holds the text as typed.
- Signature.SignaturePad.PenUp: `mouseup` and `touchend` are window listeners, so one release stops drawing on every pad. The model applies it to one pad at a time.
- Signature.SignaturePad.Capture: a pad has at least one pixel in each direction (`Valid` and the constructor ask for it), because the page's canvases have a fixed positive size. On a zero-size canvas the copy with `drawImage` and the read with `getImageData` (script.js:240-242) throw, so the PDF export fails; the model does not cover that case.
- The quick-add form's fields being emptied after an add (script.js:133), a UI effect.
