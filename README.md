# add_grades: grades from a PDF table into Word internship reports

`add_grades.py` is a small teacher's tool. It reads a grade table from a PDF.
Each student's grade goes into the grade blank of a Word internship report
whose file name contains the student's name. The report also gets the
teacher's signature picture, today's date and a comment that depends on the
grade band. The tool then lists:

- the students without a report;
- the reports nobody was matched with;
- the reports it could not fill.

This Dafny project models the program's logic as it is written:

- `Text` (`text.dfy`) holds the Python string operations the program relies on:
  - `in` (`Contains`);
  - `str.replace` (`ReplaceAll`, leftmost and non-overlapping);
  - `str.strip` (`Strip`, over Python's whitespace set);
  - `int()` on a `str` (`ParseInt`: surrounding whitespace, an optional sign, ASCII digits with single `_` separators).
- `Comments` (`comments.dfy`) is `generate_teacher_comment`.
- `GradeTable` (`grade_table.dfy`) is `extract_grades_from_pdf`.
  - A PDF cell is `Option<string>`. pdfplumber gives an empty cell as `""` and a grid slot that no cell covers (a merged cell's other slots) as `None`.
  - `"学号" in None` raises `TypeError` and `None.strip()` raises `AttributeError`. Neither is caught, so both end the run (`Crash`).
  - `KeyError` and `IndexError` skip the row.
  - The method `ExtractGrades` runs the program's three nested loops and is proved equal to `Extract`.
  - `Extract` is characterised by a reference definition (`Reference`): first header row, then the data rows after it.
- `ReportFill` (`report_fill.dfy`) is `fill_grade_in_report`.
  - A document is its tables, then rows, then cells, then paragraphs.
  - A paragraph is its text plus the number of signature pictures appended to it.
  - The four nested loops are methods, each proved equal to a specification function.
  - The three `break`s are captured by `FoldStop`: a loop that stops once the grade flag is set and hands back the rest unchanged.
  - `DocumentIsCellLoop` shows that the nested loops equal one loop over the cells in reading order (`Cells`).
- `Matching` (`matching.dfy`) is `main`: the matching of students with report files and the bookkeeping.
- `Seqs` and `Wrappers` are small shared definitions.

Inputs that come from the outside world are parameters:

- the PDF's tables (`pages`);
- the reports directory's listing (`listing`);
- a document's tables (`tables`);
- today's date as text (`date`);
- the outcome of each `fill_grade_in_report` call inside `main` (`outcome(k, file)`: the value returned when the k-th student of the grade table is filled into `file`).

## Model

| member | source | states |
|---|---|---|
| Comments.TeacherComment | add_grades.py:52-60 | `generate_teacher_comment`: the band chain over the integer grade. Its meaning is stated by `CommentBands`. |
| Comments.CommentBands | add_grades.py:52-60 | The comment is one of the three sentences or empty. Each sentence is returned exactly on its band: [60,70], (70,85] or (85,100]. The empty comment is returned exactly below 60 or above 100. |
| Comments.CommentNonEmptyInRange | add_grades.py:52-60 | Every grade in [60,100] gets a non-empty comment. |
| Text.ReplaceAll | add_grades.py:74 | `str.replace` without a count: leftmost, non-overlapping occurrences, scanning on after each replacement. Characterised by `ReplaceIsJoinOfSplit` and `ReplaceWithoutOccurrence`. |
| Text.Contains | add_grades.py:24 | Python's `in` on strings: some slice equals the substring, the empty string being in every string. Used for every `in` test of the program. |
| Text.StartsWithDigit | add_grades.py:38 | `re.match(r'\d+', grade)` succeeds exactly when the grade starts with a digit. Characterised by `EmittedEntriesWellFormed` and `DataRowOfReadable`. |
| Text.Strip | add_grades.py:34-36 | `str.strip()` over Python's whitespace set. Characterised by `StripIsTrimmedSlice`, `StripIdempotent` and `StripEmptyIffAllSpace`. |
| Text.ParseInt | add_grades.py:113 | `int()` on a `str`: strip, an optional sign, ASCII digit groups joined by single `_`. Characterised by `ParseIntOfDecimal`, `ParseIntRejects` and `ParseIntRejectsStray`. |
| Text.JoinSplit | add_grades.py:74 | Joining the pieces of a split with the pattern gives back the original text. |
| Text.ReplaceIsJoinOfSplit | add_grades.py:74 | `str.replace` rewrites every occurrence. The text is cut at each occurrence of the pattern: the pieces joined with the pattern rebuild the text, and no piece holds the pattern. The result puts the replacement in every cut. |
| Text.SplitPiecesAreFree | add_grades.py:74 | No piece of the split still holds the pattern. |
| Text.ReplaceWithoutOccurrence | add_grades.py:109 | A text without the pattern is left as it is by `str.replace`. |
| Text.StripIsTrimmedSlice | add_grades.py:34-36 | `strip()` returns a slice of its input. Only whitespace is removed around it, and the slice neither starts nor ends with whitespace. |
| Text.StripIdempotent | add_grades.py:34-36 | Stripping twice is stripping once. |
| Text.StripEmptyIffAllSpace | add_grades.py:112 | `not text.strip()` holds exactly when the text is all whitespace. |
| Text.ParseIntOfDecimal | add_grades.py:113 | `int()` reads back the decimal spelling of every natural number. |
| Text.ParseIntRejects | add_grades.py:113 | `int()` fails when the stripped text starts with something other than a sign or a digit. |
| Text.ParseIntRejectsStray | add_grades.py:113 | `int()` fails when a later character is neither a digit nor `_`. |
| GradeTable.Field | add_grades.py:34-36 | `row[column_indices[k]].strip()`: a missing key or an index past the row skips the row, a `None` cell crashes (`AttributeError`), otherwise the stripped text. |
| GradeTable.DataRow | add_grades.py:33-43 | One data row under a known header: the `try` body with its `KeyError`/`IndexError` skip and the digit check. Characterised by `DataRowYieldsEntry`, `DataRowOfReadable` and `ShortRowSkipped`. |
| GradeTable.Step | add_grades.py:21-43 | One turn of the row loop: a header scan while the column map is empty, otherwise a data row. Specifies `ReadRow`. |
| GradeTable.RunRows | add_grades.py:18-43 | The row loop over all rows, threading the column map and the entries. Characterised by `RunRowsIsReference` and `RunRowsCrashPersists`. |
| GradeTable.Extract | add_grades.py:10-45 | `extract_grades_from_pdf` over the given pages. Characterised by `ExtractWithoutHeader`, `ExtractAfterHeader`, `ExtractedEntriesWellFormed` and `CrashEndsExtraction`. |
| GradeTable.Classify | add_grades.py:24-29 | The `if / elif / elif` chain on one header cell: 学号 first, then 姓名, then 实习报告. Characterised by `HeaderLastMatchWins` and `HeaderIdCellOnlySetsId`. |
| GradeTable.ScanHeader | add_grades.py:23-29 | Every column index recorded from a header row is a position in that row. |
| GradeTable.HeaderLastMatchWins | add_grades.py:23-29 | A column is recorded exactly when some cell names it under the elif chain. Its index is the last such cell. |
| GradeTable.HeaderIdCellOnlySetsId | add_grades.py:24-29 | A cell holding 学号 never sets the name or grade column, because the elif chain stops at 学号. |
| GradeTable.HeaderCrashIffNoneCell | add_grades.py:22-24 | Scanning a row for the header fails (`TypeError`) exactly when the row has a `None` cell (a slot no cell covers). |
| GradeTable.HeaderCrashPersists | add_grades.py:23-24 | Once a header scan fails on a prefix of the row, the rest of the row does not matter. |
| GradeTable.DataRowYieldsEntry | add_grades.py:33-43 | An emitted entry is the row's stripped id, name and grade: each of the three keys was known, its index lay inside the row, and the cell was not None. |
| GradeTable.DataRowOfReadable | add_grades.py:33-43 | A readable row gives exactly its stripped entry when the grade starts with a digit, and is skipped otherwise. |
| GradeTable.ShortRowSkipped | add_grades.py:33-43 | A row too short for a recorded column index never gives an entry (`IndexError`). |
| GradeTable.FirstHeader | add_grades.py:22-31 | The header search ends at the first row whose scan finds a column or fails. No earlier row does either. |
| GradeTable.RunFromAppend | add_grades.py:16-20 | The row loop over `a + b` is the loop over `a`, continued over `b`. |
| GradeTable.RunRowsCrashPersists | add_grades.py:10-45 | An uncaught exception on a prefix of the rows is the result of the whole extraction. |
| GradeTable.RunRowsIsReference | add_grades.py:16-43 | The row-by-row state machine equals the reference: no header found means no entries. After the first header row, the entries come from the rows after it, under that header. |
| GradeTable.EmitAppend | add_grades.py:33-43 | The data rows contribute their entries in row order. |
| GradeTable.EmittedEntriesWellFormed | add_grades.py:34-39 | Every emitted field is stripped, and every emitted grade starts with a digit. |
| GradeTable.EmittedEntriesFromRows | add_grades.py:33-39 | Every emitted entry is the entry of one of the rows. |
| GradeTable.EmitMissingColumn | add_grades.py:33-43 | When the header lacks any of the three columns, every data row is skipped (`KeyError`). |
| GradeTable.CrashEndsExtraction | add_grades.py:15-45 | An exception in any page, table or row ends the extraction with that exception. |
| GradeTable.ExtractWithoutHeader | add_grades.py:22-31 | Without a header row, no entry is extracted. |
| GradeTable.ExtractAfterHeader | add_grades.py:16-43 | The column map is set once, by the first header row, over all pages and tables. The entries come from the rows after it. |
| GradeTable.ExtractedEntriesWellFormed | add_grades.py:10-45 | Every extracted entry is stripped and has a grade starting with a digit. |
| GradeTable.ReadRow | add_grades.py:21-43 | One turn of the row loop: header scan while no header is known, otherwise the data row. |
| GradeTable.ExtractGrades | add_grades.py:10-45 | The three nested loops over pages, tables and rows compute `Extract`. |
| ReportFill.GradeWritten | add_grades.py:90 | The text that replaces the grade blank: the label, two spaces, the grade, two spaces. |
| ReportFill.GradeComment | add_grades.py:113 | `generate_teacher_comment(int(grade))`: the band comment, or `None` where `int()` raises `ValueError`. |
| ReportFill.DocxPath | add_grades.py:74 | `report_path.replace('.doc', '.docx')`, every occurrence. Characterised by `DocxPathKeepsExtension` and `DocxPathRewritesEveryOccurrence`. |
| ReportFill.ReportPath | add_grades.py:72-76 | The path that is opened and saved: the `.docx` rewrite for a `.doc` report, the path itself otherwise. |
| ReportFill.ScanParagraph | add_grades.py:88-100 | One turn of the first paragraph loop: the grade blank replaced once, then one signature appended once. |
| ReportFill.ScanParagraphs | add_grades.py:87-100 | The first paragraph loop of a cell. Characterised by `ScanParagraphsFlags`, `ScanParagraphsTexts`, `ScanParagraphsSigned` and `ScanParagraphsSignatureCount`. |
| ReportFill.Cleaned | add_grades.py:104-110 | A paragraph text with the hint removed (the text emptied) and the date blank filled. |
| ReportFill.FinishParagraph | add_grades.py:104-115 | One turn of the second paragraph loop. Characterised by `FinishParagraphSpec`. |
| ReportFill.FinishParagraphs | add_grades.py:102-115 | The second paragraph loop of the graded cell. Characterised by `FinishParagraphsFails` and `FinishParagraphsTexts`. |
| ReportFill.FillCell | add_grades.py:86-117 | One cell: the first paragraph loop, then the second when the grade is written. Characterised by `FillCellFlags`, `FillCellFlagsExact`, `FillCellGraded`, `FillCellTexts` and `FillCellSignatures`. |
| ReportFill.FoldStop | add_grades.py:84-122 | A loop that stops once the grade flag is set, the shape of the three `break`s. Characterised by `FoldStopSkips`, `FoldStopAppend` and `FoldStopFlatten`. |
| ReportFill.FillRow | add_grades.py:86-117 | The cell loop of a row with its `break`: `FoldStop` over the cells. Specifies `FillRowCells`. |
| ReportFill.FillTable | add_grades.py:85-120 | The row loop of a table with its `break`: `FoldStop` over the rows. Specifies `FillTableRows`. |
| ReportFill.FillDocument | add_grades.py:84-122 | The table loop with its `break`: `FoldStop` over the tables. `DocumentIsCellLoop` shows it equals one loop over the cells. |
| ReportFill.FillReport | add_grades.py:83-128 | The filled document, kept only when grade, signature and comment were all written and no `ValueError` was raised. Characterised, both ways, by `SavedExactly`, and by `SavedReportShape` and the `NeverSaves` lemmas. |
| ReportFill.FillOutcome | add_grades.py:65-132 | `fill_grade_in_report`: what is saved, and where. Specifies `FillGradeInReport`. |
| ReportFill.DocxPathKeepsExtension | add_grades.py:72-76 | A path ending in `.doc` is rewritten to one ending in `.docx`. |
| ReportFill.DocxPathRewritesEveryOccurrence | add_grades.py:74 | The `.doc` rewrite replaces every `.doc` in the path, a directory name's included: the path is cut at each `.doc`, the pieces rebuild the path, none of them holds `.doc`, and the result joins them with `.docx`. |
| ReportFill.ScanParagraphsFlags | add_grades.py:87-100 | In the first paragraph loop, the grade flag is set exactly when some paragraph holds the grade blank. The signature flag is set exactly when some (graded) paragraph holds the label. The comment flag is untouched. |
| ReportFill.ScanParagraphsTexts | add_grades.py:88-92 | Only the first paragraph holding the grade blank is rewritten, and only when no grade was written yet. |
| ReportFill.ScanParagraphsSigned | add_grades.py:94-100 | One signature is appended to the first paragraph holding the label, and to no other, when none was added yet. |
| ReportFill.ScanParagraphsSignatureCount | add_grades.py:94-100 | The cell's signature total grows by one exactly when the signature flag is newly set. |
| ReportFill.FinishParagraphSpec | add_grades.py:104-115 | One paragraph of the graded cell is cleaned (hint removed, date filled). If it is blank and no comment was written yet, it gets the grade's comment instead. `int()` failing is the only error. |
| ReportFill.FinishParagraphsFails | add_grades.py:102-115 | The second loop fails exactly when a comment is still due, some paragraph is blank after cleaning, and `int(grade)` fails. Otherwise the comment flag ends set exactly when it was set or a blank paragraph exists. |
| ReportFill.FinishParagraphsTexts | add_grades.py:102-115 | Every paragraph is cleaned, except the first blank one, which receives the comment when none was written yet. Signatures are untouched. |
| ReportFill.FoldStopSkips | add_grades.py:117-122 | Once the grade is written, the remaining cells, rows and tables are left exactly as they were. |
| ReportFill.FoldStopAppend | add_grades.py:84-122 | The breaking loop over `a + b` is the loop over `a`, continued over `b` from where it stopped. |
| ReportFill.FoldStopFlatten | add_grades.py:84-122 | A breaking loop nested in a breaking loop equals one breaking loop over the concatenation. |
| ReportFill.FillCellFlags | add_grades.py:86-117 | In a cell entered before the grade is written, the grade flag is set exactly when the cell holds the grade blank. A comment needs a grade `int()` accepts, a failure means `int()` rejected it, a set signature flag stays set, and a cell without the grade blank leaves the comment flag alone. |
| ReportFill.FillCellFlagsExact | add_grades.py:86-117 | In a cell entered before the grade is written: it fails exactly when it holds the grade blank, a comment is still due, its graded paragraphs have a blank one after cleaning, and `int()` rejects the grade. On success the signature flag ends set exactly when it was set or a graded paragraph holds the label. The comment flag ends set exactly when it was set or the cell holds the grade blank and has a blank paragraph after cleaning. |
| ReportFill.GradedCell | add_grades.py:87-92 | A definition: the cell with the grade written into its first paragraph holding the blank. `ScannedIsGraded` ties it to the first paragraph loop. |
| ReportFill.ScannedIsGraded | add_grades.py:87-100 | The first paragraph loop, entered before the grade is written, leaves exactly the texts of `GradedCell`: the grade blank replaced in the first paragraph holding it, every other text kept (the signature changes no text). |
| ReportFill.FillCellGraded | add_grades.py:86-117 | The cell holding the grade blank ends up as its graded paragraphs cleaned, except the first blank one, which holds the grade's comment when a comment was still due. |
| ReportFill.FillCellTexts | add_grades.py:86-117 | A cell without the grade blank keeps every paragraph's text. |
| ReportFill.FillCellSignatures | add_grades.py:86-117 | A cell gains one signature exactly when the signature flag is newly set there. |
| ReportFill.CellsFlags | add_grades.py:84-122 | Over the document, the grade is written exactly when some cell holds the grade blank. A comment is written only for an `int()`-valid grade, a failure happens only for an invalid one, and the cells keep their number. |
| ReportFill.CellsGraded | add_grades.py:84-122 | Over the document, the graded cell ends up as its graded paragraphs cleaned, with the comment in the first blank one. The comment is written exactly when there is such a paragraph. |
| ReportFill.CellsUntouched | add_grades.py:84-122 | Cells before the graded cell keep their texts. Cells after it are unchanged, because the loops break. |
| ReportFill.CellsSignatures | add_grades.py:94-100 | Over the document, exactly one signature is added when the signature flag is set, and none otherwise. |
| ReportFill.SignatureFound | add_grades.py:84-100 | Whether the first paragraph loop meets the signature label before the loops break: in a cell before the graded cell, or in the graded cell after its grade is written. |
| ReportFill.CellsSign | add_grades.py:84-122 | Over the document, the signature flag ends set exactly when it was set or `SignatureFound` holds. |
| ReportFill.DocumentIsCellLoop | add_grades.py:84-122 | The nested loops over tables, rows and cells, with their three breaks, equal one loop over the cells in reading order. |
| ReportFill.NoGradeBlankNeverSaves | add_grades.py:124-128 | A report without the grade blank is never saved, and the call returns False. |
| ReportFill.NonIntegerGradeNeverSaves | add_grades.py:112-132 | A grade `int()` rejects is never saved: either no comment is written or the `ValueError` is caught. |
| ReportFill.GradeWithUnitNeverSaves | add_grades.py:112-115 | A grade such as `85分` passes the table's digit check but not `int()`, so its report is never saved. |
| ReportFill.SavedReportShape | add_grades.py:84-128 | A saved report has an `int()`-valid grade and a grade blank. The cells before the graded cell keep their texts, the cells after it are unchanged, and exactly one signature was added. The graded cell has a blank paragraph after cleaning; it holds its graded paragraphs cleaned, with the comment in the first blank one. |
| ReportFill.SavedExactly | add_grades.py:83-128 | A report is saved exactly when `int()` accepts the grade, some cell holds the grade blank, the graded cell has a paragraph that is blank after cleaning, and the signature label is met before the loops break. |
| ReportFill.ScanCellParagraphs | add_grades.py:87-100 | The first paragraph loop computes `ScanParagraphs`. |
| ReportFill.FinishCellParagraphs | add_grades.py:102-115 | The second paragraph loop computes `FinishParagraphs`, raising `ValueError` where `int()` fails. |
| ReportFill.FillCellParagraphs | add_grades.py:87-117 | Both paragraph loops of a cell compute `FillCell`. |
| ReportFill.FillRowCells | add_grades.py:86-117 | The cell loop with its break computes `FillRow`. |
| ReportFill.FillTableRows | add_grades.py:85-120 | The row loop with its break computes `FillTable`. |
| ReportFill.FillGradeInReport | add_grades.py:65-132 | Returns True exactly when the filled document is written to the (rewritten) path. What is written is `FillOutcome`: saved only when grade, signature and comment are all filled; any `ValueError` gives False. |
| Matching.IsReportFile | add_grades.py:140 | `f.endswith(".doc") or f.endswith(".docx")`. |
| Matching.ReportFiles | add_grades.py:140 | The candidate files are exactly the listed names ending in `.doc` or `.docx`, in listing order. |
| Matching.FirstMatch | add_grades.py:149-163 | The match is the first candidate whose name contains the student's name. No earlier candidate contains it. |
| Matching.CallOf | add_grades.py:149-156 | The call made for a student: on the first candidate whose name contains the student's name, with the student's name and grade; none when no candidate does. |
| Matching.FailedStudents | add_grades.py:156-160 | The positions in the grade table of the students whose call returns False, increasing, and exactly those. |
| Matching.MatchAllSpec | add_grades.py:148-164 | The calls are one per student with a candidate file, in grade-table order, each on the first file containing that student's name. The unmatched students are the others, in grade-table order, as (id, name) pairs. The processed files are exactly the called files. The failed reports are the files of the calls that returned False, in grade-table order, a file failing twice listed twice. |
| Matching.EveryStudentAccountedFor | add_grades.py:148-164 | Every student with a candidate file gets a call on the first one, with its own grade. Every student without one is listed as unmatched. |
| Matching.UnprocessedSpec | add_grades.py:167-169 | The unmatched reports are exactly the candidate files that were not processed, in candidate order. |
| Matching.SameFileMatchedTwice | add_grades.py:148-164 | The same file can be matched by two students (张三 and 张三丰 both match 张三丰.docx). |
| Matching.MatchStudent | add_grades.py:149-164 | One turn of the student loop: a call on the first matching file, recorded as processed (and failed when the call returns False), or the student listed as unmatched. |
| Matching.MatchAll | add_grades.py:148-164 | The student loop. Characterised by `MatchAllSpec` and `EveryStudentAccountedFor`. |
| Matching.Unprocessed | add_grades.py:167-169 | The loop listing the files not processed. Characterised by `UnprocessedSpec`. |
| Matching.RunMain | add_grades.py:134-177 | `main`: the extraction, the candidate files, the student loop and the unmatched files. Specifies `RunScript`. |
| Matching.FindReport | add_grades.py:149-163 | The inner loop with its break finds `FirstMatch`. |
| Matching.MatchReports | add_grades.py:142-164 | The loop over the students computes `MatchAll`. |
| Matching.UnmatchedReports | add_grades.py:166-169 | The loop over the candidate files computes `Unprocessed`. |
| Matching.RunScript | add_grades.py:134-169 | `main` computes `RunMain`. An exception while reading the table ends the run. |

## Left out

- pdfplumber: opening the PDF and `extract_tables` are not modelled. The tables are given as `pages`.
- python-docx: opening and saving a document are not modelled, and the paragraph/run structure is abstracted. A paragraph is its text and a count of signature pictures.
- python-docx: setting `paragraph.text` replaces all of a paragraph's runs, so it would also drop a signature picture added earlier to that paragraph. The model keeps the count. `ReportFill.CellsSignatures` and `ReportFill.SavedReportShape` state the count as if the picture survives a later text change in the same paragraph.
- python-docx: `row.cells` repeats a merged cell once per grid column. The model visits each given cell once.
- Failures to open, convert or save a document are not modelled. They also end up in the `except` branch and return False.
- `save_doc_to_docx`: the conversion, `os.remove` and `os.path.dirname` are not modelled. Only the path rewrite (`ReportPath`, `DocxPath`) is.
- `os.path.abspath`, `os.path.join` and `os.listdir` are not modelled. The listing is a parameter (`listing`), and a report is named by its file name.
- `datetime.now` and `strftime` are not modelled. The date text is a parameter (`date`).
- `argparse` and every `print` are not modelled. Printing has no effect on the results.
- The signature image path and the student's name passed to `fill_grade_in_report` are not modelled, because neither changes what is filled.
- `re.match(r'\d+')` and `int()` are modelled on ASCII digits and Python's whitespace set. Unicode decimal digits that Python also accepts are left out.
- `Matching.RunScript`: `fill_grade_in_report` is an oracle `outcome(k, file)`. The files on disk change between calls: a converted `.doc` is deleted, so a second student matched with it fails. The model does not derive the outcome from `ReportFill.FillGradeInReport`.
