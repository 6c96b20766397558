# RenWeb grade scraper: the extraction core

This project models how `renweb_scraper.py` turns the frames of a RenWeb
grades page into grade reports, and proves what that extraction promises.

- `extract_grades_from_iframe` takes the first three body lines as course
  information. It then walks the frame's tables in order, carrying a current
  category from table to table.
  - A table whose text contains one of five keywords starts a category named
    by the text's last word.
  - A table whose first cell reads "assignment" is an assignment table. Its
    rows after the first run through an ordered cascade: blank, category
    average, term grade, assignment. Each outcome updates the grade
    dictionary in place.
  - A failure inside a table abandons the rest of that table only.
  - The record is returned when it has a category or a term grade.
- `scrape_grades` keeps the frames whose URL is a grades URL and collects
  their non-empty records in frame order. It returns `None` when there are
  none.

The browser is not modelled. A frame arrives as data: its URL, its body
lines, and its tables. A table is its raw inner text, the text of its first
`th`/`td` cell if any, and the raw text of each row's `td` cells. The model
applies `strip()` and `lower()` to that text itself, as the code does.

The percentage `str(round(float(p) / float(m) * 100, 2))` is a function
parameter. It returns `Some(text)`, or `None` when `float()` or the division
raises.

Modules:

- `Text`: the Python string built-ins used: `isspace`, `strip`, `lower`,
  `in` and `split()`.
- `Grades`: the report's data types, and a functional specification of the
  extraction as folds over tables and rows.
- `Scraper`: the imperative code. Class `GradesData` is the `grades_data`
  dictionary, updated in place. The methods `ExtractGradesFromFrame`,
  `ProcessRows` and `ScrapeGrades` loop as the source does, and each is
  proved equal to its specification function.
- `GradeProperties`: the properties of that specification.

Python dictionaries iterate in insertion order. `Course.order` records that
order beside the `categories` map, and re-inserting an existing key keeps
its place.

Two behaviours of the code are worth stating plainly:

- A percentage that raises does not just leave that field `None`. `float()`
  and the division at renweb_scraper.py:147-148 are unguarded, so the
  exception reaches the per-table handler at renweb_scraper.py:165-167, which
  abandons the table's remaining rows (`RaisingRowAbandonsRest`,
  `RaisingRowEndsTable`).
- A term-grade row with two cells changes nothing, because
  renweb_scraper.py:129 needs more than two cells. The `else ""` at
  renweb_scraper.py:133 is unreachable, and `TermGradeRowEffect` proves the
  letter is always the third cell.

## Model

| member | source | states |
|---|---|---|
| Text.TrimLeftRemovesLeadingSpace | renweb_scraper.py:87 | `lstrip` drops exactly a run of whitespace and keeps a suffix that does not start with whitespace |
| Text.TrimRightRemovesTrailingSpace | renweb_scraper.py:87 | `rstrip` drops exactly a run of whitespace and keeps a prefix that does not end with whitespace |
| Text.IsSpace | renweb_scraper.py:87 | the definition of `str.isspace`: membership in the 29 characters Python counts as whitespace, which `strip()` and `split()` use at lines 87, 94 and 113 |
| Text.TrimLeft | renweb_scraper.py:87 | `lstrip()`; its contract only bounds the length, what it removes is `TrimLeftRemovesLeadingSpace` |
| Text.TrimRight | renweb_scraper.py:87 | `rstrip()`; its contract only bounds the length, what it removes is `TrimRightRemovesTrailingSpace` |
| Text.Strip | renweb_scraper.py:87 | `strip()` is the definition: `rstrip()` of `lstrip()`; its properties are `StripTrims` |
| Text.Contains | renweb_scraper.py:91 | the definition of `sub in s`: `sub` starts at some position of `s` |
| Text.StripTrims | renweb_scraper.py:113 | `strip()` starts and ends with non-whitespace, and is empty iff the cell is all whitespace |
| Text.Lower | renweb_scraper.py:87 | `lower()` keeps the length |
| Text.LowerAppend | renweb_scraper.py:206 | lowering a concatenation lowers each part |
| Text.ContainsInside | renweb_scraper.py:206 | `sub in a + sub + b` always holds |
| Text.ShortDoesNotContain | renweb_scraper.py:120 | a string shorter than `sub` does not contain it |
| Text.Words | renweb_scraper.py:94 | `split()` yields non-empty words without whitespace |
| Text.WordsEndWith | renweb_scraper.py:94 | after whitespace, or at the start, a word is the last element of `split()` |
| Grades.ResetCategory | renweb_scraper.py:95-98 | the name maps to an empty category; other keys and entries are kept; a new key goes last in iteration order and an existing one keeps its place; course info and term grade are unchanged |
| Grades.CourseInfoOf | renweb_scraper.py:67-74 | field k is body line k, or "" when there are fewer than k+1 lines |
| Grades.TableText | renweb_scraper.py:87 | the definition: `inner_text().strip().lower()` |
| Grades.HasKeyword | renweb_scraper.py:90-93 | the definition: some keyword of the five occurs in the table text |
| Grades.Headers | renweb_scraper.py:102-105 | the header list has at most one entry, from the first cell |
| Grades.CategoryName | renweb_scraper.py:94 | the name is the last `split()` word of the table text, non-empty and without whitespace |
| Grades.Classify | renweb_scraper.py:87-108 | header iff a keyword is present; assignment table iff there is no keyword and the first cell, stripped and lowered, is exactly "assignment" |
| Grades.CellTexts | renweb_scraper.py:113 | one stripped text per cell, in order |
| Grades.AnyText | renweb_scraper.py:116 | the definition of `any(cell_texts)`: some cell is a non-empty string |
| Grades.Truthy | renweb_scraper.py:121 | the definition of the truthiness test on `current_category` (also at line 139): set and non-empty |
| Grades.IsAverageLabel | renweb_scraper.py:120 | the definition: "category average" occurs in the lowered first cell |
| Grades.IsTermLabel | renweb_scraper.py:128 | the definition: "term grade" occurs in the lowered first cell |
| Grades.InterpretRow | renweb_scraper.py:115-163 | skip iff all cells are empty; an average or an assignment needs a truthy current category and 2 or 5 cells; a term grade needs 3 cells |
| Grades.ApplyRow | renweb_scraper.py:122-163 | a row never changes the course info, the category keys or their order |
| Grades.RunRows | renweb_scraper.py:111-167 | the rows of a table never change the course info, the category keys or their order |
| Grades.AfterHeader | renweb_scraper.py:111 | the definition of `rows[1:]`, empty for a table with no rows |
| Grades.Start | renweb_scraper.py:78-80 | the empty record with no current category satisfies the invariant |
| Grades.RunTable | renweb_scraper.py:85-167 | keeps the invariant (keys match the order without repeats; the current category is non-empty and present); keys only grow; only a header table moves the current category or the order |
| Grades.RunTables | renweb_scraper.py:85-167 | keeps the same invariant across tables; keys only grow |
| Grades.ExtractGrades | renweb_scraper.py:169-173 | a returned record satisfies the invariant and carries the course info; it is returned iff it has a category or a term grade |
| Grades.IsGradesUrl | renweb_scraper.py:205-206 | the definition of the URL test: non-empty, and "grades.cfm" in the lowered URL or "/GradeBook/" in the URL as written |
| Grades.FrameYield | renweb_scraper.py:205-211 | the definition of what one frame appends: its record when the URL passes and the record is not `None`; see `FrameYieldMembership` |
| Grades.Collected | renweb_scraper.py:203-211 | the definition of `all_courses_data` after the loop: the frames' contributions in order; see `CollectedStep`, `CollectedConcat` and `CollectedMembership` |
| Grades.ScrapeResult | renweb_scraper.py:215 | `None` iff nothing was collected; otherwise the non-empty collected list |
| Scraper.GradesData.constructor | renweb_scraper.py:78 | the dictionary starts with no categories and no term grade |
| Scraper.GradesData.ResetCategory | renweb_scraper.py:95-98 | the in-place reset has the effect of `Grades.ResetCategory` |
| Scraper.GradesData.SetCategoryAverage | renweb_scraper.py:122-124 | the in-place write has the effect of a category-average row |
| Scraper.GradesData.SetTermGrade | renweb_scraper.py:130-135 | the in-place write has the effect of a term-grade row |
| Scraper.GradesData.AppendAssignment | renweb_scraper.py:161-163 | the in-place append has the effect of an assignment row |
| Scraper.ProcessRows | renweb_scraper.py:111-167 | the row loop, with its `continue`s and the exit on a raising percentage, leaves the dictionary as `RunRows` specifies |
| Scraper.ExtractGradesFromFrame | renweb_scraper.py:66-173 | the table loop returns exactly `ExtractGrades` |
| Scraper.ScrapeGrades | renweb_scraper.py:200-215 | the frame loop returns exactly `ScrapeResult` |
| GradeProperties.BlankRowChangesNothing | renweb_scraper.py:115-117 | a row whose cells are all whitespace, or that has no cells, changes nothing and processing goes on |
| GradeProperties.AverageRowEffect | renweb_scraper.py:120-125 | a "category average" row sets the current category's average to cell 1 when there is a current category and 2 cells, and otherwise changes nothing; it is never a term grade or an assignment |
| GradeProperties.TermGradeRowEffect | renweb_scraper.py:128-136 | a "term grade" row sets the term grade to cells 1 and 2 when it has 3 cells, and otherwise changes nothing; the letter is never the empty default |
| GradeProperties.AssignmentRowEffect | renweb_scraper.py:139-163 | any other row appends (name, points, max, percentage, status, due) from cells 0, 1, 2, 4 and the optional 5 when there is a current category and 5 cells; the percentage is `None` iff cell 1 or 2 is empty; the row raises iff both are present and the computation fails |
| GradeProperties.AssignmentRowAppends | renweb_scraper.py:139-163 | an assignment row under a current category with 5 cells and a percentage that does not raise appends its assignment at the end of that category's list, and nothing else in the record changes |
| GradeProperties.EssayRowExample | renweb_scraper.py:139-163 | the row "Essay 1", "18", "20", "", "Graded", "2024-05-01" under "homework" is that assignment, due "2024-05-01" |
| GradeProperties.RaisingRowAbandonsRest | renweb_scraper.py:111-167 | a raising row leaves the record as the rows before it left it; it and every later row are dropped |
| GradeProperties.RowsKeepAssignments | renweb_scraper.py:161-167 | existing assignment lists only grow at the end, even when a row raises |
| GradeProperties.RowsAfterHeaderStopAt | renweb_scraper.py:111-167 | cutting a table's rows just before a raising row does not change what its rows do |
| GradeProperties.RaisingRowEndsTable | renweb_scraper.py:85-167 | a table with a raising row ends as if its rows stopped there, and keeps the current category for the next table |
| GradeProperties.HeaderTableResetsCategory | renweb_scraper.py:87-99 | a keyword table makes its last word the current category and empties its entry, discarding earlier contents; only the order can grow and the term grade stays |
| GradeProperties.CategoryNameIsLastWord | renweb_scraper.py:94 | a keyword table whose text ends in whitespace followed by a word (e.g. "homework assignments") names the category by that word |
| GradeProperties.UnrecognizedTableChangesNothing | renweb_scraper.py:90-108 | a table with no keyword and no "assignment" header changes nothing, the current category included |
| GradeProperties.HeaderRowNeverInterpreted | renweb_scraper.py:111 | replacing a table's first row leaves the outcome unchanged |
| GradeProperties.TablesCompose | renweb_scraper.py:85-167 | tables are processed in sequence, each starting from the state the previous ones left |
| GradeProperties.CurrentIsLastHeader | renweb_scraper.py:80-99 | after any tables, the current category is the last header's name, or what it was before |
| GradeProperties.UnrecognizedTablesChangeNothing | renweb_scraper.py:85-108 | a run of unrecognised tables changes nothing |
| GradeProperties.HeaderTableYieldsCourse | renweb_scraper.py:169-173 | a frame with a keyword table returns a record, even with no assignments |
| GradeProperties.UnrecognizedFrameYieldsNothing | renweb_scraper.py:169-173 | a frame whose tables are all unrecognised returns `None` |
| GradeProperties.CollectedConcat | renweb_scraper.py:203-211 | collection keeps frame order: the records from two runs of frames are the first run's followed by the second's |
| GradeProperties.AtMostOneRecordPerFrame | renweb_scraper.py:203-211 | the list has at most one record per frame |
| GradeProperties.ConcatMembership | renweb_scraper.py:203-211 | an element of the appended-together parts is an element of some part, and every element of a part is in the result |
| GradeProperties.YieldsAppend | renweb_scraper.py:203-211 | the per-frame contributions of two runs of frames are each run's, in frame order |
| GradeProperties.CollectedStep | renweb_scraper.py:203-211 | one more frame appends exactly what that frame contributes |
| GradeProperties.CollectedMembership | renweb_scraper.py:203-211 | a record is collected iff some frame contributes it |
| GradeProperties.FrameYieldMembership | renweb_scraper.py:205-211 | a frame contributes its record iff its URL is a grades URL and the record is not `None` |
| GradeProperties.GradeBookPathIsGradesUrl | renweb_scraper.py:205-206 | any URL containing "/GradeBook/" is a grades URL |
| GradeProperties.GradesCfmIsGradesUrl | renweb_scraper.py:205-206 | any URL containing "grades.cfm" in any letter case is a grades URL |
| GradeProperties.ScrapeNoneIff | renweb_scraper.py:203-215 | the result is `None` iff no frame has a grades URL and yields a record |

## Left out

- Playwright and the browser: `wait_for_selector`, `locator`, `inner_text`, `content`, `goto`, `wait_for_load_state`, `screenshot` and `time.sleep`. Their results are the input data.
- The outer `try` blocks at renweb_scraper.py:58/175-177 and 204/212-213. They catch browser and debug-file failures (an `OSError` from `save_debug_file` at renweb_scraper.py:64 makes the frame yield `None`), which are not modelled. A frame modelled here never fails as a whole.
- An exception from `inner_text()` inside a table's `try` is not modelled. Only the percentage computation can fail inside a table.
- Floating point: `float()`, the division, `round(..., 2)` and `str()` are the `Percentage` parameter. The numeric value and its formatting are not verified.
- Debug files, JSON output, logging and timestamps (`save_debug_file`, `save_data`, `datetime.now()`) are output only.
- The login flow (`perform_login`), `main`, environment variables and credentials are configuration and browser work, not extraction.
- Text.Lower: lowercases the ASCII letters only, while Python's `str.lower()` also lowercases other scripts and can change the length. So a non-ASCII capital that Python lowers to an ASCII letter is not matched: U+212A KELVIN SIGN lowers to `k`, making "HOMEWOR\u212A" a header table in the code but not in the model; and non-ASCII capitals in a table's last word stay uppercase in the model's category name. Its contract states only that the length is kept.
