# Student marks analysis — a Dafny model

The application takes a CSV upload of student marks and attendance. For each student it computes:

- the SGPA;
- the letter grade;
- a coaching suggestion, with a low-attendance warning appended when needed.

It then hands the data series behind five charts to a renderer and shows a class summary.

This project models the logic between "the CSV has been read" and "the page is rendered":

| file | module | what it covers |
|---|---|---|
| `grading.dfy` | `Grading` | `calculate_sgpa`, `assign_grade` and `give_suggestions`. Numbers are exact reals; `round(x, 2)` is rounding to the nearest hundredth with ties to even. |
| `text.dfy` | `Text` | The Python string behaviour the rest relies on: the `<` order on `str`, `sorted(set(...))`, `str.replace(p, "")`, `str.endswith`, `", ".join` and `strip() == ""`. |
| `normalizer.dfy` | `Normalizer` | `parse_df_to_students`. |
| `charts.dfy` | `Charts` | The data-shaping loops of `build_figures`, the class-summary expression of the upload handler, and the handler's flow: parse, stop when there are no students, otherwise build the charts and the summary. |

How `Normalizer` models `parse_df_to_students`:

- **The table.** It is column names plus rows of tagged cells: `Missing` is pandas' NaN, `Num` is a numeric field and `Str` is text. A row shorter than the header reads `Missing` past its end.
- **Conversions.** Python's `float(text)` and `str(number)` are passed in as a `Conversions` value.
- **Subjects.** `DiscoverSubjects` finds the subjects with a loop over the columns.
- **Records.** `ReadSubjects` is the loop over the subjects. It is proved to produce the parts of the declarative `RecordOf`: the display marks (`MarksOf`), the marks with "Absent" as 0 (`Numbers`), the absence count (`CountAbsent`) and the attendance dictionary (`AttendanceMap`). `BuildRecord` has no loop of its own. It calls `ReadSubjects`, computes the remaining fields, and is proved equal to `RecordOf`.
- **The dictionary.** `ParseTable` discovers the subjects, and `StoreRows` fills an insertion-ordered dictionary (`Roster`): a new name goes last, and a repeated name keeps its place but takes the later record.

The chart builder follows the source's own form. The SGPA bar (`Sgpas`) and the grade pie (`GradeCounts`) are comprehensions in the source, so they are functions here. The scatter, heatmap, stacked and per-student series are loops in the source, so each is a method with a loop, proved against a function or predicate that describes the series. `Depicts` gathers all the series for a non-empty dictionary.

## Model

| member | source | states |
|---|---|---|
| Grading.RoundHalfEven | app.py:16 | The result is an integer within 0.5 of the input; on an exact tie it is the even neighbour. |
| Grading.Round2 | app.py:16 | `round(x, 2)` is within 0.005 of `x` and is a whole number of hundredths. On an exact tie (`x` halfway between two hundredths) it is the neighbour with an even number of hundredths. |
| Grading.Round2Monotone | app.py:16 | Rounding to two places preserves `<=`. |
| Grading.Round2OfHundredths | app.py:16 | A value that already has two decimals is unchanged by `round(x, 2)`. |
| Grading.MeanBounds | app.py:16 | The mean of values within `[lo, hi]` is within `[lo, hi]`. |
| Grading.Sgpa | app.py:13-16 | No marks give SGPA 0. Otherwise the SGPA is within 0.005 of the mean mark divided by ten, taking the even hundredth on an exact tie. It always has two decimals. |
| Grading.SgpaInRange | app.py:13-16 | Marks on the 0..100 scale give an SGPA in 0..10. |
| Grading.SgpaMonotone | app.py:13-16 | Raising any marks (same number of subjects) never lowers the SGPA. |
| Grading.AssignGrade | app.py:18-30 | The grade is the band the SGPA falls in. It is at least the grade's threshold (9, 8, 7, 6, 5). It is below the next grade's threshold, except for O. F is the only grade with no lower bound. |
| Grading.GradeMonotone | app.py:18-30 | A higher SGPA never gets a lower grade in the order F < C < B < A < A+ < O. |
| Grading.GradeBoundaries | app.py:18-30 | 9.0 is O, 8.999 is A+, 6.0 is B, 5.0 is C and 4.99 is F. |
| Grading.GradeMonotoneInMarks | app.py:13-30 | Raising any marks never lowers the grade. |
| Grading.GiveSuggestion | app.py:32-42 | The message is the one that goes with the grade `assign_grade` gives: the suggestion bands are the grade bands, with C and F sharing one message. |
| Grading.LabelInjective | app.py:18-30 | Distinct grades have distinct labels ("O", "A+", "A", "B", "C", "F"). |
| Charts.CountByLabel | app.py:124-125 | How often a grade occurs equals how often its label string occurs, so the pie, which counts label strings, shows the grade distribution. |
| Grading.SeriousExactlyBelowSix | app.py:32-42 | The "Need serious improvement" message is given exactly when the SGPA is below 6, and exactly when the grade is C or F. |
| Text.LessTotal | app.py:53 | Python's string `<` relates any two different strings one way or the other. |
| Text.LessTransitive | app.py:53 | Python's string `<` is transitive. |
| Text.Insert | app.py:53 | Inserting into a strictly increasing list keeps it strictly increasing, and adds exactly the new element. |
| Text.Canonical | app.py:53 | `sorted(set(raw))` is strictly increasing and holds exactly the elements of `raw`. |
| Text.SortedUnique | app.py:53 | Two strictly increasing lists with the same elements are equal. |
| Text.CanonicalOrderFree | app.py:50-53 | The subject list depends only on which names occur, not on column order or repeats. |
| Text.RemoveAll | app.py:52 | `str.replace(p, "")` never lengthens the text. `RemoveAllLeftmost` and `RemoveAllAbsent` together fix its result for every input: every occurrence of `p` is removed, not only a suffix. |
| Text.RemoveAllLeftmost | app.py:52 | At the leftmost occurrence of `p`, `replace` keeps the text before it, drops the occurrence and goes on removing in the rest. |
| Text.RemoveAllAbsent | app.py:52 | Text in which `p` does not occur is left unchanged. |
| Text.RemoveAllSuffixOnly | app.py:52 | When `_marks` occurs in a column name only as its suffix, `replace("_marks", "")` strips exactly that suffix. |
| Normalizer.SubjectOfPlainColumn | app.py:51-52 | The subject of a column such as `Math_marks` is the name without the suffix. |
| Normalizer.MarksColumnRoundTrip | app.py:51-69 | For such a column, `f"{sub}_marks"` rebuilds the column name, and `row.get` finds that column. |
| Normalizer.DoubleSuffixReadsAbsent | app.py:52-72 | A column `a_marks_marks` announces subject `a`, but no `a_marks` column exists, so that subject's mark reads "Absent". |
| Normalizer.DiscoverSubjects | app.py:48-53 | The subjects are strictly increasing and are exactly the `replace`d names of the columns ending in `_marks`. |
| Normalizer.Get | app.py:69 | `row.get(col)` finds nothing exactly when no column is called `col`. |
| Normalizer.RowName | app.py:61 | The name is read from the row's first cell: "Unknown" when it is NaN, `str()` of a number, the text itself otherwise. |
| Normalizer.IsBlankMark | app.py:70 | A missing column and a NaN cell are blank. A number is never blank. Empty or whitespace-only text is blank; text with any non-space character is not. |
| Normalizer.MarkOf | app.py:69-80 | A mark is "Absent" exactly when its cell is missing, NaN or whitespace only. A number is kept. Non-blank text gives its `float()` value, or 0.0 when `float()` rejects it. |
| Normalizer.AttendanceOf | app.py:81-85 | An attendance is NaN exactly for a NaN cell. A missing column gives 0.0, a number is kept, and text gives its `float()` value or 0.0 when `float()` rejects it. |
| Normalizer.GetFirst | app.py:69 | `row.get(col)` reads the cell under the first column called `col`, or NaN past the end of a short row. |
| Normalizer.ReadSubjects | app.py:62-85 | The subject loop produces, for every subject in canonical order: the display marks, `marks` as those marks with "Absent" read as 0, `absents` as the count of "Absent", and one attendance entry. |
| Normalizer.BuildRecord | app.py:60-103 | The record built for a row is `RecordOf`, the declarative description of every field. |
| Normalizer.RecordOf | app.py:87-103 | A record has one mark per subject and an attendance entry for exactly the subjects. Its SGPA has two decimals and its grade is the grade of that SGPA. Its suggestion is exactly the SGPA's message when no subject is below 75, and differs from it otherwise. |
| Normalizer.MarkCases | app.py:69-80 | A mark is "Absent" exactly when its cell is missing, NaN or whitespace only. A non-blank cell that does not parse gives 0.0, not "Absent". |
| Normalizer.AttendanceCases | app.py:81-90 | In a record: a missing attendance column gives 0.0; unparseable text gives 0.0; a NaN cell gives NaN, and NaN never counts as below 75. |
| Normalizer.SumNumbers | app.py:71-93 | Adding up the marks with "Absent" as 0 equals adding up the numeric entries. |
| Normalizer.CountAbsentEntries | app.py:64-73 | `absents` is the number of "Absent" entries; every other entry is numeric. |
| Normalizer.RecordTotals | app.py:64-93 | `absents` counts the "Absent" marks and is at most the number of subjects. `total` is the sum of the numeric marks. The SGPA is 0 for no subjects and otherwise within 0.005 of total / subjects / 10. |
| Normalizer.LowAttendance | app.py:90 | The low-attendance list names exactly the subjects whose attendance is below 75. |
| Normalizer.WithWarning | app.py:91-92 | The suggestion is a prefix of the result. The result equals the suggestion exactly when the low-attendance list is empty. |
| Normalizer.LowAttendanceExact | app.py:90 | The low-attendance list is strictly increasing and names exactly the subjects whose attendance is below 75. |
| Normalizer.WarningExactlyWhenLow | app.py:89-92 | The warning is appended exactly when some subject is below 75. It then lists exactly those subjects, comma-joined in canonical order. |
| Normalizer.Dedup | app.py:95 | The names in order of first appearance: no repeats, exactly the names that occur, and a name listed before another first occurs earlier. |
| Normalizer.Roster.Put | app.py:95 | `students[name] = rec` maps `name` to `rec`. A new name goes last and an existing one keeps its place; the dictionary stays well formed. |
| Normalizer.StoreRow | app.py:60-95 | After each row, every name holds the record of the last row so far with that name. |
| Normalizer.PutDedup | app.py:95 | Storing each row under its name lists the names in order of first appearance. |
| Normalizer.StoreRows | app.py:60-95 | The row loop leaves a well-formed dictionary. Its names are the rows' names in order of first appearance. Each name holds the record of its last row, and every record fits the subjects. |
| Normalizer.ParseTable | app.py:47-105 | A table with rows but no columns is an error (there is no name column). Otherwise: the subjects are the canonical subject list; no rows give an empty dictionary; names appear in order of first appearance; each name holds the record of its last row; every record fits the subjects. |
| Charts.Sgpas | app.py:117 | The SGPA bar has one SGPA per name, in name order, and every stored student's SGPA appears in it. |
| Charts.Grades | app.py:124 | One grade per name, in name order, and every stored student's grade appears. |
| Charts.GradeCounts | app.py:124-125 | The pie's keys are exactly the grades that occur, each mapped to its positive count. |
| Charts.GradeCountsTotal | app.py:124-125 | The grade counts add up to the number of students. |
| Text.IndexOf | app.py:146 | `subjects.index(sub)` is the first position of `sub`. |
| Charts.IndexOfCanonical | app.py:146 | In the canonical subject list, `subjects.index` of the i-th subject is i. |
| Charts.AttendanceVector | app.py:164 | One attendance per subject. |
| Charts.AttendanceVectorOfFit | app.py:134 | When the record has entries for exactly the subjects, the i-th value is the i-th subject's entry, which is the order in which `attendance.values()` lists them, and every entry appears. |
| Charts.AverageAttendance | app.py:134-135 | With no subjects the average is 0. It is NaN exactly when some attendance is NaN. Otherwise it lies between the lowest and highest attendance. |
| Charts.AverageAttendanceInRange | app.py:134-135 | Attendances within 0..100 average to a number within 0..100. |
| Charts.AverageAttendances | app.py:132-136 | The scatter's x values hold one average attendance per student, in name order. |
| Charts.Heatmap | app.py:142-148 | The heatmap has a row per subject and a column per student, holding that student's mark in that subject, with "Absent" shown as 0. |
| Charts.StackRow | app.py:155 | One value per student: that student's mark in the subject at `subjects.index(sub)`, with "Absent" as 0. It equals that subject's row of any subject-by-student mark matrix, so of the heatmap. |
| Charts.Stacks | app.py:153-155 | The stacked chart has the same shape and entries. |
| Charts.MarkMatrixUnique | app.py:142-155 | Two such subject-by-student matrices are equal, so the stacks equal the heatmap. |
| Charts.PerStudentAttendance | app.py:162-167 | The per-student charts list one (name, attendance per subject) pair per student, in name order. |
| Charts.BuildFigures | app.py:110-177 | No students give the empty figures. Otherwise it gives: the names; their SGPAs; the grade counts; one average attendance per student; the heatmap; stacks equal to the heatmap; and one attendance series per student. |
| Charts.ClassSummary | app.py:203-208 | Without students all three values are 0. Otherwise the average, maximum and minimum are within 0.005 of `np.mean`, `np.max` and `np.min`, each taking the even hundredth on an exact tie. All three have two decimals. |
| Charts.MaxOf | app.py:206 | `np.max` is one of the values and is at least every value. |
| Charts.MinOf | app.py:207 | `np.min` is one of the values and is at most every value. |
| Charts.SummaryOrdered | app.py:203-208 | The summary's minimum <= average <= maximum. |
| Charts.SummaryInRange | app.py:203-208 | SGPAs in 0..10 give a summary in 0..10. |
| Charts.SummaryExtremesAttained | app.py:205-207 | When the SGPAs have two decimals, rounding leaves the maximum and minimum alone, so both are SGPAs that occur. |
| Charts.SgpasHaveTwoDecimals | app.py:87 | Every SGPA in a parsed dictionary has two decimals. |
| Charts.SummaryOfConsistent | app.py:203-208 | The summary's maximum and minimum are SGPAs of actual students. |
| Charts.Summarise | app.py:200-208 | For a non-empty dictionary it gives every chart series `build_figures` promises (`Depicts`) and the class summary of the SGPAs. The summary is ordered and its extremes are students' SGPAs. |
| Charts.Analyse | app.py:195-208 | Whole flow: an error exactly for rows without columns; "no students" exactly when there are no rows. Otherwise the report is built from the table: its subjects are the table's canonical subjects; its names are the rows' names in order of first appearance; each name holds the record of its last row; its figures are every chart series of that dictionary; its summary is the class summary, ordered, with extremes that are actual SGPAs. |

Three behaviours of the code are easy to miss:

- **A blank attendance cell.** pandas reads it as NaN, and `float(NaN)` succeeds (app.py:81-85), so the entry is NaN, not 0.0.
  - NaN is never below 75, so it raises no warning.
  - It makes that student's average attendance NaN.
  - `Reading.NaN` models this.
- **Subjects come only from `_marks` columns** (app.py:50-53). A subject that has only an `_attendance` column is not a subject.
- **`col.replace("_marks", "")` removes every occurrence of `_marks`**, not only the suffix. `Normalizer.DoubleSuffixReadsAbsent` shows the consequence.

## Left out

- The Flask routes, the upload form, flash messages, redirects and template rendering (app.py:182-215, apart from the summary expression) are web plumbing. They are not part of this model.
- `pd.read_csv` is not modelled. The model starts from a `Table` of tagged cells. Column-name mangling of duplicate headers and per-column type inference are not modelled; `Get` reads the first column with the requested name.
- The Plotly figure objects, titles, axis ranges and colour scales are left out. `Figures` keeps only the data series each chart receives.
- Floating point is left out. Marks, SGPAs and attendances are exact reals, so the rounding error of `sum` and `/` is not modelled, and `round` is applied to the exact value. NaN exists only where the source produces it from a blank attendance cell.
- `float(text)` and `str(number)` are parameters (`Conversions`). A text that `float` turns into NaN or infinity ("nan", "inf") is not modelled: `parseFloat` yields a real or nothing.
- Charts.BuildFigures: the grade pie is a map from grade to count. The order in which `value_counts` lists the labels (by descending count) is not modelled.
- Charts.AverageAttendances: `list(attendance.values())` is read subject by subject in canonical order. This is the order in which `parse_df_to_students` fills every attendance dictionary.
- Normalizer.ParseTable: a table with rows but no columns makes `df.columns[0]` raise in the source. Here it returns the error value `NoNameColumn`.
