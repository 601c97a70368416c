# Tax-form PDF to spreadsheet extraction, modelled in Dafny

The scripts read monthly tax declarations (forms 103 and 104, and the ATS
purchases report) from PDF files. They pull values out of the text and write
them into an Excel workbook, one column or row per month. This project models
the computations inside that plumbing and proves what they do:

- **TokenExtractor**: `extraer_valores_indices`, the look-ahead over each
  page's words. A requested field code takes the word that follows it on the
  same page. Both variants are modelled: the one that seeds with `0` and tries
  `float()`, and the one in `main.py` that seeds with `None` and keeps text.
- **Retentions**: `extraer_codigos_retencion`. It takes the part of each
  page between the first and second occurrence of the withholding-summary
  header. It matches each stripped line with a dedicated recogniser for
  `^(\d{3}[A-Z]?)\s+.*?(amount)\s+(amount)$`. The code, the lazy `.*?` and the
  two amounts are modelled as the regex engine takes them. Both variants are
  modelled: the base-and-withheld one and the base-only one.
- **PurchaseTotals**: `extraer_totales_compras`. On every page holding
  `COMPRAS`, it finds the first line holding `TOTAL:` and runs a dedicated
  scanner for `re.findall(r"(\d{1,3}(?:,\d{3})*(?:\.\d+)|\d+\.\d+)", line)`.
  With four amounts or more, the first three become the three totals.
- **Columns**: `mes_a_columna`, including Python's negative indexing. It also
  holds the spreadsheet's column naming and the address `f"{column}{row}"`.
- **Assignments** and **Placement**: the write loops.
  - `escribir_en_hoja`, `escribir_en_hoja_por_filas` and
    `escribir_en_hoja_por_ubicaciones` write into one named sheet, created
    when missing.
  - `escribir_en_plantilla` writes into the sheet each location entry names,
    and skips codes whose sheet does not exist.
  - A sheet is a map from cells to values, and a workbook is a map from sheet
    names to sheets.
  - A raise inside the loop (`int()` on a bad row, a month outside
    `mes_a_columna`'s list) abandons the call. It is a `Failure` result, and
    the caller keeps its old workbook.
- **Text**, **Numerals**, **PyDict** and **Wrappers**: the Python built-ins the
  above rely on.
  - `str.strip`, `str.split`, `in`, `str.replace` and `str.find` (Text).
  - What `int()` and `float()` accept on ASCII-digit text, and `str()` of an
    int (Numerals).
  - Insertion-ordered dicts (PyDict). Dict order matters: it decides which of
    two codes resolving to the same cell writes last.

Numbers are kept as the literal text handed to `float()`, never as
floating-point values. The proofs show that each such literal is accepted by
`float()` as Python defines it.

The model follows the code as written:

- A retention code is exactly three digits and an optional capital letter.
  A four-digit code such as `3121` never matches, because its fourth digit is
  neither a letter nor whitespace.
- The `break` in `extraer_totales_compras` leaves only the line loop. Later
  pages are still examined, and a later page with totals replaces earlier
  ones.

## Model

| member | source | states |
|---|---|---|
| Columns.MonthToColumn | test_vale.py:94-96 | The lookup succeeds exactly for months -11..12, which are the indexes Python accepts after `mes - 1`. It always yields one of the twelve month columns. |
| Columns.MonthColumnIsEveryThird | test_vale.py:95 | For months 1..12, the column is the spreadsheet column numbered 3·mes (C, F, …, AJ). |
| Columns.MonthToColumnInjective | test.py:84-86 | Distinct months 1..12 give distinct columns. |
| Columns.MonthToColumnAliases | formulario_103.py:38-40 | Months -11..0 read the same column as month + 12 (negative list indexing). |
| Columns.AddressInjective | test_vale.py:123 | Two cells with letter columns have the same text address `f"{column}{row}"` only when they are the same cell. So keying a sheet by (column, row) is faithful. |
| Columns.NumberOfName | test_vale.py:95 | Column naming is bijective base 26: reading back the letters of column n gives n. |
| Numerals.ParseInt | test_vale.py:120 | `int()` succeeds only on text that is not blank once stripped and holds no comma, and a negative result comes only from a leading `-`. ParseIntRoundTrip is its partner. |
| Numerals.IsFloatLiteral | test_vale.py:40 | `float()` succeeds only on text that is not blank once stripped and holds no comma. That is why the extractor turns commas into points before calling it. PlainDecimalIsFloat is its partner. |
| Numerals.ParseIntRoundTrip | test_vale.py:120 | `int()` of `str(n)` gives n back, for every integer including negatives. |
| Numerals.IntToStringInjective | test_vale.py:123 | Distinct row numbers print differently. |
| Numerals.PlainDecimalIsFloat | test_vale.py:65 | `float()` accepts a digit run, and a digit run, a point and digits. |
| Text.Split | extrear_tablas.py:11 | `split(sep)` gives at least one piece, and at least two exactly when sep occurs. JoinSplit and SplitJoin are its partners. |
| Text.Strip | extrear_tablas.py:12 | `strip()` never lengthens the text. StripFacts states what it removes. |
| Text.Section | extrear_tablas.py:11 | The section read after the marker fits in the text beside the marker. SectionFacts and SectionIsSecondPiece say where it lies. |
| Text.JoinSplit | extrear_tablas.py:12 | Joining the pieces of `split(sep)` with sep gives the text back, and no piece contains sep. |
| Text.SplitJoin | extrear_tablas.py:12 | Splitting pieces joined with a one-character separator that none contains gives the pieces back. |
| Text.StripFacts | extrear_tablas.py:12 | `strip()` removes whitespace only, from both ends, and leaves no whitespace at either end. |
| Text.SectionIsSecondPiece | extrear_tablas.py:11 | The section read is `split(marker)[1]`, which exists whenever the marker occurs. |
| Text.SectionFacts | extrear_tablas.py:11 | The section starts right after the first occurrence of the marker, contains no occurrence of it, and ends at the second occurrence or at the end of the text. |
| Text.FindLeftmost | extrear_tablas.py:11 | `find` returns the leftmost occurrence at or after the start, and None only when there is none. |
| Text.RemoveCharDrops | test.py:54 | `replace(",", "")` leaves no comma and adds no character. |
| Text.RemoveCharConcat | test.py:54 | Removing a character distributes over concatenation. |
| TokenExtractor.Convert | test_vale.py:36-42 | The stored value is never the seed. When `float()` accepts the text with every `.` and `,` turned into `.`, that text is stored as the number. Otherwise the word with every `.` turned into `,` is stored, character by character. |
| TokenExtractor.ExtractWith | test.py:13-33 | The result's keys are exactly the requested codes, in the order of the seeded dict. |
| TokenExtractor.ExtractValues | test_vale.py:23-44 | The 0-seeded, float-converting extractor returns exactly the requested codes. |
| TokenExtractor.ExtractTexts | main.py:5-21 | The None-seeded, text-keeping extractor returns exactly the requested codes. |
| TokenExtractor.ScanPageLastHit | test_vale.py:31-44 | On a page, the successor of the last occurrence of a code that has a successor decides the code's value. |
| TokenExtractor.ScanPagesLastHit | test_vale.py:28-44 | Across pages, the last occurrence with a successor, in reading order, decides the value. |
| TokenExtractor.ScanPagesNoHit | formulario_103.py:18-31 | A code that never occurs with a successor on the same page keeps its value. An occurrence as the last word of a page gives nothing, and nothing is read across pages. |
| TokenExtractor.ExtractNoHit | test_vale.py:24 | A code never seen with a successor keeps the seed value. |
| TokenExtractor.ExtractLastHitWins | formulario_103.py:15-31 | The stored value is the converted successor of the code's last occurrence with one. |
| TokenExtractor.ExtractSeedIffNoHit | test.py:13-33 | When no conversion can give the seed value itself, a code holds the seed value if and only if it never occurs with a successor. |
| TokenExtractor.ValuesZeroOrLastSuccessor | test_vale.py:24-44 | A code holds the int seed `0`, never a float, exactly when it was never found with a successor. Otherwise it holds the conversion of its last successor. |
| TokenExtractor.TextsNoneIffNotFound | main.py:6-19 | A code holds None exactly when it was never found with a successor. Otherwise it holds its last successor with every `.` turned into `,`. |
| Retentions.MatchLine | extrear_tablas.py:15-19 | A line the pattern matches yields a well-formed code and two well-formed amounts. MatchSound and MatchComplete say which. |
| Retentions.ExtractRetentions | extrear_tablas.py:4-22 | The result is a well-formed insertion-ordered dict. RetentionsKeysAndLastWins states its keys and values. |
| Retentions.ExtractBases | test_vale.py:51-68 | The base-only variant's result is a well-formed insertion-ordered dict. BasesOfRetentions relates it to the two-amount variant. |
| Retentions.CodeLength | extrear_tablas.py:15 | The code group is three digits plus the capital letter when one follows, and it must be followed by whitespace. |
| Retentions.FirstAmountStartLeast | extrear_tablas.py:15 | The lazy `.*?` stops at the earliest position from which the rest up to the last gap is a whole amount. |
| Retentions.MatchStripped | extrear_tablas.py:15 | A match yields a well-formed code and two well-formed amounts. |
| Retentions.MatchSound | extrear_tablas.py:15 | Every match splits the line into code, whitespace, text without line break, amount, whitespace, amount, ending the line. |
| Retentions.MatchComplete | extrear_tablas.py:15 | Every such split of the line is found: same code and same last amount. The first amount found ends where the split's one ends and starts no later, because `.*?` is lazy. |
| Retentions.FourDigitCodeRejected | extrear_tablas.py:15 | A stripped line starting with four digits never matches. |
| Retentions.AmountIsFloat | test.py:54-55 | `float()` accepts every matched amount once its commas are removed. |
| Retentions.LineMatchesMembers | extrear_tablas.py:14-16 | The matches of a page's lines are exactly the matcher's results on those lines. |
| Retentions.DocumentMatchesMembers | extrear_tablas.py:8-16 | The matches of a document are exactly the matches of the scanned lines of its pages. |
| Retentions.RetentionSources | extrear_tablas.py:9-14 | A retention comes from a matching line of a page that holds the header, between its first and second occurrence, and every such line is seen. A page without the header contributes no line. |
| Retentions.RecordKeys | extrear_tablas.py:20 | The codes stored are the codes already present plus those of the matches. |
| Retentions.RecordLast | extrear_tablas.py:16-20 | A code holds what its last match gives. |
| Retentions.RecordUntouched | extrear_tablas.py:20 | A code with no match keeps its entry. |
| Retentions.RetentionsKeysAndLastWins | extrear_tablas.py:4-22 | The keys returned are the codes of the matching lines, and each holds both amounts of its last matching line, commas removed. |
| Retentions.StoredAmountsAreFloats | extrear_tablas.py:18-19 | Every stored base and withheld amount passes `float()`, so the loop never raises there. |
| Retentions.BasesOfRetentions | test_vale.py:61-66 | The base-only variant returns the same codes in the same order, each with the base the two-amount variant stores. The withheld column is dropped. |
| PurchaseTotals.MatchEndSound | extrear_tablas.py:37 | What the scanner takes at a position is a whole amount of one of the two alternatives. |
| PurchaseTotals.MatchEndComplete | extrear_tablas.py:37 | An amount at a position, not followed by a digit, is taken whole there. |
| PurchaseTotals.FindAll | extrear_tablas.py:37 | Every string findall returns is an amount with a decimal part. |
| PurchaseTotals.FindAllJoin | extrear_tablas.py:37 | Amounts written with single spaces between them are all found, each whole and in order. |
| PurchaseTotals.FindAllSpread | extrear_tablas.py:36-37 | Amounts with text without digits before, between and after them, and at least one character between two amounts, are all found, each whole and in order. A `TOTAL:` line with its label and spacing gives back exactly its amounts. |
| PurchaseTotals.TotalLineExample | extrear_tablas.py:36-43 | The line `TOTAL:  1,200.50  0.00  35.10  1,235.60` gives the totals `1200.50`, `0.00` and `35.10`. |
| PurchaseTotals.NoPointNoAmounts | test.py:73 | A line without a point gives no amount. |
| PurchaseTotals.TotalAmountIsFloat | extrear_tablas.py:40-42 | `float()` accepts every amount found, once its commas are removed. |
| PurchaseTotals.FirstTotalLine | extrear_tablas.py:35-36 | The line examined holds `TOTAL:`, and no earlier line of the section does. |
| PurchaseTotals.TotalsDict | extrear_tablas.py:39-43 | The totals dict has the three fixed keys, in order, holding the three amounts without commas. |
| PurchaseTotals.LineTotalsValues | test_vale.py:84-89 | With at least four amounts on the line, the first three go to the three keys in order, commas removed. The rest are ignored. |
| PurchaseTotals.LineTotalsAreFloats | test.py:74-79 | Every stored total passes `float()`. |
| PurchaseTotals.PageTotals | extrear_tablas.py:30-44 | A page gives totals only when it holds `COMPRAS`, and then a well-formed dict with the three keys in order. |
| PurchaseTotals.ExtractTotals | extrear_tablas.py:25-45 | The result is `{}` or the totals that some page gives. |
| PurchaseTotals.FirstTotalLineDecides | extrear_tablas.py:35-44 | A page's totals are decided by its first `TOTAL:` line after the marker alone. |
| PurchaseTotals.PageWithoutTotalsKeeps | test.py:72-80 | A page whose first `TOTAL:` line has fewer than four amounts, or that has no such line or no marker, leaves the earlier totals unchanged. |
| PurchaseTotals.LastQualifyingPageWins | extrear_tablas.py:29-44 | The result is the totals of the last page that gives totals. The `break` does not leave the page loop. |
| PurchaseTotals.EmptyIffNoTotals | extrear_tablas.py:26-45 | The result is `{}` exactly when no page gives totals. Otherwise it holds the three keys in order. |
| Assignments.Apply | test_vale.py:117-124 | When the loop completes, every cell the sheet had is still there. ApplyOutcome and ApplyCells state the values. |
| Assignments.ApplyOutcome | test_vale.py:117-131 | The loop raises exactly when some code raises, and then with the error of the first one. Otherwise the sheet ends as the old sheet overwritten by the gathered assignments. |
| Assignments.WritesLastWriter | test_vale.py:117-124 | A cell assigned by several codes holds the value of the last of them in dict order. |
| Assignments.ApplyCells | test.py:105-112 | The cells after the loop are the old ones plus the targets. An untargeted cell keeps its value, and a targeted one holds its last writer's value. |
| Assignments.ApplyIdempotent | test.py:105-112 | Running the loop twice with the same dict gives the sheet running it once gives. |
| Placement.Target | test_vale.py:119-203 | The destination cell of each strategy, with its error cases. By month column: the row text must parse and the month must be in range. The cell is then (mes_a_columna(mes), int(row text)). By month row: the base cell must be non-empty, and the cell is its first character on row 10 + mes. By row offset: the base cell must be non-empty and its row parse, and the cell is its first character on row int(row text) + mes - 1. |
| Placement.Place | test_vale.py:112-124 | The call succeeds exactly when every code with a location resolves. The named sheet (reused, or new and empty) then receives the gathered assignments, and nothing else changes. |
| Placement.PlaceTouchesNamedSheet | test.py:100-103 | Only the named sheet changes, and it exists afterwards. |
| Placement.PlaceCreatesSheet | test.py:100-103 | A missing sheet is created holding just the assignments. |
| Placement.PlaceWritesSharedCodes | test_vale.py:117-124 | The cells added are exactly the targets of codes present in both the dict and the location table, and other cells keep their values. |
| Placement.PlaceLastCodeWins | test_vale.py:117-124 | Each targeted cell holds the value of the last code in dict order that targets it. |
| Placement.PlaceIdempotent | test.py:105-112 | Placing the same dict for the same month twice gives the workbook placing it once gives. |
| Placement.MonthColumnTarget | test.py:107-111 | By month column, for months 1..12, a base cell made of one character and a printed row goes to the column numbered 3·mes, on that row: the row text parses back to the row. |
| Placement.MonthColumnTargetsDistinct | test_vale.py:119-123 | By month column, one code's cells for two different months are different. |
| Placement.MonthRowTarget | test_vale.py:162-168 | By month row, month a goes to row 11 + a - 1, which lies in 11..22 and increases with the month. The column is the base cell's first character. |
| Placement.RowOffsetTarget | test_vale.py:199-206 | By row offset, month a goes to row base + a - 1: rows run base..base+11 and increase strictly with the month, all in the base cell's column. |
| Placement.WriteTemplate | formulario_103.py:56-65 | When the form writer's loop completes, the workbook has the same sheets as before. TemplatePerSheet states their contents. |
| Placement.PlaceInTemplate | formulario_103.py:56-67 | The form writer never creates or removes a sheet. |
| Placement.TemplateSucceeds | formulario_103.py:56-67 | The form writer raises exactly when a code with a location has a bad row or the month is out of range, whether or not its sheet exists. |
| Placement.TemplatePerSheet | formulario_103.py:56-65 | Each existing sheet ends as its old content overwritten by the assignments of the codes whose entry names it. |
| Placement.TemplateUntouchedSheet | formulario_103.py:62-67 | A sheet no entry names is left as it was. A code naming a missing sheet is skipped without stopping the others. |
| Placement.TemplateWritesNamedSheet | formulario_103.py:58-65 | A written cell lies in the sheet its code's entry names, at (mes_a_columna(mes), base row), and holds the value of the last code in dict order that targets it. |
| PyDict.FromKeys | test.py:13 | `{k: v for k in keys}` has exactly those keys, all holding v, in the keys' order when they are distinct. |
| PyDict.Put | extrear_tablas.py:20 | Assignment updates the map. A new key goes to the end of the order, and an existing key keeps its place. |

## Left out

- PDF reading (`pdfplumber.open`, `extract_words`, `extract_text`): a document is given as its pages' word lists or texts.
- Workbook I/O (xlwings open, save, close, `App.quit`, `os.path.exists`): a workbook is a map of sheets. The choice between the template file and an existing output file is I/O, so the workbook to start from is a parameter.
- TokenExtractor.Convert: stores the literal that `float()` accepts, not its floating-point value. Rounding and the printed form of floats are not modelled. The same holds for the amounts stored by Retentions and PurchaseTotals.
- Regex `\d`, `int()` and `float()` take only the ASCII digits here (Text.IsDigit, used by Numerals.ParseInt and Numerals.IsFloatLiteral). Python also accepts other Unicode decimal digits in all three. For such words, Convert stores text where the program stores a float, and Target reports BadRow where the program computes a row. `\s` and `strip()` use Python's full whitespace set.
- TokenExtractor.ValuesZeroOrLastSuccessor: the model keeps the int seed `0` and a found zero (`"0"`, `"0,00"`, converted to `0.0`) apart. In Python `0 == 0.0`, and both write the same number to the sheet. So a code that holds zero was not necessarily missing from the document.
- Exception and logging paths:
  - The extractor's catch-all returns a partly filled dict when reading fails midway (test_vale.py:45-48).
  - The writers log and save nothing on a raise (modelled as Failure).
  - A raise inside the retention or totals loops propagates. The model shows that `float()` cannot raise there.
- The `procesar_*` monthly drivers and the top-level script calls are orchestration. The literal location and code tables are configuration.
- xlwings' own handling of addresses (validation, case of sheet names): a cell is its column text and row, and a sheet name is compared exactly.

The `main.py` printing loop and the module-level configuration of each script are not part of this model.
