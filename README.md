# Test management store, modelled in Dafny

This project models the in-memory core of `app.js`, a browser application for
running tests. Teachers keep a question catalog with categories, build tests
from snapshots of catalog questions, and manage a student roster. They assign
tests to students and review long answers. Students take timed tests whose
answers become submissions. The model covers:

- the global `data` record (tests, students, questions, submissions,
  categories) and the session globals beside it (`currentTest`, the
  countdown, the selected category chip);
- every command that changes them: taking, submitting and grading a test;
  deleting and resetting; the category, student, question, test and
  assignment forms;
- the CSV parser, the three CSV exporters (questions, results, students) and the two CSV importers;
- the scores and counts the dashboards show.

Modules, one per concern:

- `Domain`: the records, the error kinds, and list helpers with the meaning of
  `Array.prototype.filter`, `find` and `findIndex`.
- `Text`: `String.prototype.trim`, ASCII `toLowerCase`, `String(n)` and
  `Number` on digit strings, `escapeHtml`, `getDifficultyStars`, and the
  `m:ss` countdown text.
- `Csv`: `parseCSV`, as a specification function and as the loop the source
  runs, and the quoting all exporters share.
- `Scoring`: pending reviews, `Math.round` percentages, the student overview
  and the result rows of a test.
- `Commands`: each command as a function from the old data to the new data,
  or to the error the source reports with `alert`.
- `Session`: the answers built by `submitTest` and the `setInterval`
  countdown.
- `Imports`: the student and question importers, and the exports they read
  back.
- `App`: class `Store`, the mutable store. Its methods update its fields in
  place and are proved to end in the state the functions above describe.
  `Valid()` says that student ids and category names never repeat, and the
  methods that touch those fields preserve it.

## Model

| member | source | states |
|---|---|---|
| Domain.KindOf | app.js:927 | the `type` tag is multiple-choice or long-answer exactly when the string is "multiple-choice" or "long-answer" |
| Text.Trim | app.js:559-560 | `trim()` never lengthens a string |
| Text.TrimSpec | app.js:559-560 | the trimmed string is empty or starts and ends with a non-space |
| Text.TrimEmptyIffBlank | app.js:562 | a trimmed field is empty exactly when the input was all white space, which is the `!id` test of the forms |
| Text.TrimNoEdgeSpace | app.js:559-560 | trimming a string without edge spaces returns it unchanged |
| Text.TrimStartSpec | app.js:559 | what trimming removes at the front is white space, and what remains starts with a non-space |
| Text.TrimEndSpec | app.js:559 | what trimming removes at the end is white space, and what remains ends with a non-space |
| Text.Lower | app.js:1193 | `toLowerCase` keeps the length and leaves no upper-case ASCII letter |
| Text.LowerIdempotent | app.js:1193 | lower-casing twice is lower-casing once |
| Text.NatToString | app.js:921 | `String(n)` of a natural is a non-empty digit string without a leading zero |
| Text.IntToString | app.js:1203 | `String(id)` starts with '-' exactly for negative ids |
| Text.ParseDecimal | app.js:1212 | `Number(idStr)` yields a value exactly on non-empty digit strings |
| Text.ParseNatToString | app.js:1212 | `Number(String(n)) == n`: the digits of n read back to n |
| Text.EscapeHtml | app.js:142 | the escaped text contains no `<`, `>`, `"` or `'` and is never shorter |
| Text.EscapeHtmlRoundTrip | app.js:142 | decoding the five entities of the escaped text gives back the original, so escaping loses nothing |
| Text.UnescapeChar | app.js:142 | each escaped character decodes back to itself, whatever follows |
| Text.DifficultyStars | app.js:144 | one, two or three stars exactly for easy, medium or difficult in any ASCII case, otherwise none |
| Text.JsRem | app.js:920 | `%` agrees with Euclidean remainder on non-negative operands and lies in (-b, 0] on negative ones |
| Text.PadTwo | app.js:921 | `padStart(2,'0')` gives at least two characters that end with the input |
| Text.PadTwoDigits | app.js:921 | the padded seconds are exactly two digits that read back as the seconds |
| Text.TimerTextRoundTrip | app.js:920-921 | the `m:ss` text of t seconds reads back as t, so the display shows the exact remaining time |
| Text.TimerTextParts | app.js:920-921 | the text is the minutes, ':' and the two-digit seconds, with t == 60m + s |
| Csv.ParseLine | app.js:1163-1177 | the character loop of one line returns the fields of the line's specification |
| Csv.ParseCsv | app.js:1159-1181 | the loop over non-blank lines returns the specification's rows |
| Csv.NonBlankLinesKept | app.js:1160 | a line survives the filter exactly when it is not blank |
| Csv.ScanLength | app.js:1164-1177 | a line has one more field than it has commas outside quotes |
| Csv.ParseCsvFieldCount | app.js:1160-1180 | one row per non-blank line, each with one field more than its unquoted commas |
| Csv.QuoteField | app.js:1074 | an exported cell starts and ends with '"' |
| Csv.ScanQuoted | app.js:1166-1170 | a doubled-quote cell followed by its closing quote is read back as the original text |
| Csv.ScanQuotedRow | app.js:1164-1177 | a quoted, comma-joined row scans back into its fields |
| Csv.ParseQuotedRow | app.js:1163-1177 | parsing an exported line gives back its fields |
| Csv.SplitJoined | app.js:1160 | joining lines with "\n" and splitting them again returns the lines |
| Csv.CsvRoundTrip | app.js:1159-1181 | `parseCSV` of an export returns the exported table, for non-empty rows whose cells hold no line feed |
| Csv.LineFeedInFieldSplitsRow | app.js:1160 | an exported cell holding a line feed comes back as two rows, so the round trip needs cells without line breaks |
| Csv.DoubleQuotesNoQuote | app.js:1074 | a cell without quotes is written unchanged between its quotes |
| Scoring.HasPendingIff | app.js:249 | a submission counts as pending exactly when it has an unreviewed long answer |
| Scoring.PendingCount | app.js:249 | the pending-reviews count is at most the number of submissions, and zero exactly when none is pending |
| Scoring.RoundHalfUp | app.js:292 | `Math.round(n/d)`: the nearest integer, halves rounded up |
| Scoring.RoundAtMost | app.js:292 | rounding a ratio of at most k gives at most k |
| Scoring.RoundAtLeast | app.js:292 | rounding a ratio of at least k gives at least k |
| Scoring.Percent | app.js:289-298 | a percentage lies in 0..100, all correct is 100, none correct is 0 |
| Scoring.McPercent | app.js:289-293 | the multiple-choice score is at most 100 |
| Scoring.LongPercent | app.js:294-298 | the long-answer score is at most 100 |
| Scoring.TotalPercentBounds | app.js:299-303 | without long answers the total is the MC score; with them it lies between the two scores; it is at most 100 |
| Scoring.ScoreExample | app.js:289-303 | 2 of 3 MC (67) and 1 of 2 long (50) round to a total of 59 |
| Scoring.SumAtMost | app.js:305 | a sum of scores each at most k is at most k times their number |
| Scoring.AverageAtMost | app.js:305 | the rounded average of scores each at most k is at most k |
| Scoring.SubmissionsOf | app.js:282 | a student's submissions are exactly the stored ones with their id |
| Scoring.StudentAverageAtMost100 | app.js:305 | the overview average is at most 100% |
| Scoring.PendingLongIff | app.js:306 | the student's pending long answers are positive exactly when one of their submissions is pending |
| Scoring.FindSubmission | app.js:1068 | the submission found belongs to the test and student, and none is found exactly when no stored one does |
| Scoring.StudentName | app.js:1067 | an unknown student shows an empty name; a non-empty name is a roster student's with that id |
| Scoring.ResultRows | app.js:1066-1073 | one result row per assigned student, in assignment order, each the row of that student (see `Scoring.RowFacts`) |
| Scoring.RowFacts | app.js:1069-1072 | a row is "Completed" exactly when the student has a submission for the test; correct answers never exceed the totals, and accepted plus pending long answers never exceed the long answers; a "Not Started" row reports the test's MC and long questions as totals with nothing correct or pending; a "Completed" row counts the answers of the student's submission |
| Scoring.ResultsTable | app.js:1065-1074 | the exported table is the header followed by one eight-field line per row |
| Scoring.RowFieldsDecode | app.js:1072 | the numeric columns of a row read back as its counts |
| Scoring.ResultsCsvRoundTrip | app.js:1063-1074 | parsing the results export returns the header and the result rows, for ids and names without line breaks |
| Commands.AfterSubmit | app.js:939-941 | the new submission is the last one kept |
| Commands.SubmitLeavesOnlyNew | app.js:939-941 | after submitting, the new submission is the only one of its test and student |
| Commands.SubmitKeepsOtherPairs | app.js:939-941 | the submissions of every other test and student are untouched |
| Commands.SubmitKeepsOnePerPair | app.js:939-941 | at most one submission per test and student is an invariant of submitting |
| Commands.SubmitIsFound | app.js:939-941 | the results lookup finds the new submission |
| Commands.Grade | app.js:817-819 | "Submission not found" exactly when no submission has the id; grading keeps the number of submissions |
| Commands.GradeChangesOneAnswer | app.js:817-819 | exactly one answer changes, only in its review fields; "Answer not found" exactly when the first submission with the id has no answer with the index |
| Commands.GradeIdempotent | app.js:817-819 | grading the same answer again with the same verdict changes nothing |
| Commands.GradePendingCount | app.js:819 | grading never raises the pending count, and lowers it by one exactly when the answer was its submission's last unreviewed long answer |
| Commands.TestsWithout | app.js:508 | the tests kept are exactly those with another id |
| Commands.SubmissionsWithoutTest | app.js:509 | the submissions kept are exactly those of other tests |
| Commands.DeleteTestKeepsOthers | app.js:509 | the submissions of every other test are untouched |
| Commands.SubmissionsWithoutStudent | app.js:603 | the submissions kept are exactly those of other students |
| Commands.StudentsWithout | app.js:602 | the students kept are exactly those with another id |
| Commands.StudentIdsWithout | app.js:602 | the roster's ids after the delete are the old ids without the deleted one |
| Commands.StudentsWithoutKeepsDistinct | app.js:602 | deleting a student keeps ids unique |
| Commands.Unassign | app.js:604 | only the assignment changes, and it keeps every other student |
| Commands.UnassignAll | app.js:604 | every test, in order, loses the student from its assignment |
| Commands.DeleteStudentLeavesNoReference | app.js:600-605 | no student, submission or assignment refers to the deleted id, and every other assignment is kept |
| Commands.QuestionsWithout | app.js:728 | the questions kept are exactly those with another id |
| Commands.StripQuestion | app.js:729 | a test keeps everything but its copies of the deleted question |
| Commands.CategoriesWithout | app.js:438 | the category is gone and every other category is kept |
| Commands.StripCategory | app.js:439 | a question loses the deleted category, keeps every other category, and nothing else changes |
| Commands.ChipAfterDelete | app.js:440 | the selected chip never names the deleted category, and another selection is kept |
| Commands.DeleteCategoryKeepsDistinct | app.js:438 | deleting a category keeps names unique |
| Commands.IncludesIff | app.js:721 | `includes` holds exactly when the search occurs at some position of the text |
| Commands.FilteredQuestions | app.js:714-724 | a question is listed exactly when it is in the catalog, has the selected category (or none is selected) and its lower-cased text contains the lower-cased search (or the search is empty) |
| Commands.FilteredQuestionsAll | app.js:720-722 | with no category and no search, the list is the whole catalog in order |
| Commands.RenameSubmissions | app.js:569 | each submission is renamed in place, in order |
| Commands.RenameIds | app.js:570 | each occurrence of the old id becomes the new one and nothing else changes |
| Commands.RenameInTests | app.js:570 | each test's assignment is renamed in place |
| Commands.RenameLeavesNoOldId | app.js:568-570 | after the rename no submission or assignment refers to the old id |
| Commands.RenameRoundTrip | app.js:568-570 | renaming back restores submissions and tests when the new id was unused |
| Commands.AddTrimmedCategory | app.js:413-426 | a name is added exactly when it is non-empty and new, at the end; an empty name is refused as empty |
| Commands.AddCategoryKeepsDistinct | app.js:420-426 | adding a category keeps names unique |
| Commands.SaveQuestionSpec | app.js:651-670 | a blank text changes nothing; an edit keeps the question's id and place; a new one is appended with the new id; a complete multiple-choice form stores its options and answer, and other kinds drop them |
| Commands.SaveQuestionStoresBeforeValidating | app.js:658-668 | a new multiple-choice question with a blank option is reported but stays in the catalog without options |
| Commands.SaveTrimmedTest | app.js:759-777 | a test is appended exactly when the name, a non-zero duration and a selection are given and every selected id names a question; it holds those questions in selection order and no students |
| Commands.Snapshot | app.js:763-765 | the snapshot holds a catalog question for each selected id, in order, and fails exactly when an id names none |
| Commands.Assign | app.js:497-498 | assigning keeps the number of tests |
| Commands.AssignReplaces | app.js:497-498 | the selection replaces the whole assignment of the first test with the id, and every other test is unchanged |
| Commands.StudentIds | app.js:567 | the ids of the roster, in order |
| Commands.SaveStudentSpec | app.js:558-575 | a blank field is refused; a new student is appended; an edit replaces the student being edited; an id is refused as taken exactly when another student holds it |
| Commands.ReplaceKeepsDistinct | app.js:566-572 | replacing a student under its own id or an unused one keeps ids unique |
| Commands.AppendKeepsDistinct | app.js:574-575 | appending a student with an unused id keeps ids unique |
| Commands.SaveStudentKeepsIdsDistinct | app.js:558-575 | saving keeps ids unique, and a rename leaves no reference to the old id |
| Session.BuildAnswer | app.js:926-933 | a multiple-choice answer is correct exactly when something is selected and equals the correct answer; every other answer is unreviewed, and a long answer holds the textarea's text |
| Session.BuildAnswers | app.js:925-935 | one answer per test question, in order |
| Session.BuiltAnswerTotals | app.js:925-935 | a fresh submission has as many MC and long answers as the test has questions of each kind, all long ones pending |
| Session.SubmittedRowTotals | app.js:1066-1073 | right after a submit the student's result row is "Completed" with the test's MC and long questions as totals, every long answer pending and none accepted |
| Session.BuiltSubmissionPending | app.js:925-935 | a fresh submission awaits review exactly when the test has a long-answer question |
| Session.Arm | app.js:860 | the countdown starts at the duration in seconds, not expired, running |
| Session.Tick | app.js:905-915 | one callback counts down, or at zero clears the interval, sets expired and submits |
| Session.RunStopped | app.js:904-908 | a cleared interval changes nothing |
| Session.RunFrom | app.js:905-915 | fewer callbacks than seconds left submit nothing; from then on the test has been submitted exactly once and the clock stays expired at 0 |
| Session.TimerSubmitsOnce | app.js:905-915 | a test of d minutes is submitted by the timer exactly once, at second 60d |
| Session.TimerNonPositive | app.js:906-912 | a test without a positive duration expires on the first callback |
| Imports.HeaderKeys | app.js:1248 | one key per header cell |
| Imports.Column | app.js:1248 | the column of a key is its last occurrence in the header, and missing exactly when the key is absent |
| Imports.Tally.Bump | app.js:1256-1259 | each row adds one to exactly one count |
| Imports.ReadStudentRows | app.js:1251-1255 | one set of cells per data row |
| Imports.ApplyStudentSpec | app.js:1253-1259 | one row keeps ids unique; it is skipped exactly when id or name is empty; otherwise the student is present under that name with a non-empty password; only an added row lengthens the roster |
| Imports.StudentRowsSpec | app.js:1251-1260 | importing keeps ids unique; the three counts add up to the data rows; the roster grows by the number added |
| Imports.StudentsTable | app.js:1234-1235 | the export table has the header and one line per student |
| Imports.StudentsHeader | app.js:1248 | the exported header reads back as the keys id, name, password |
| Imports.ExportParses | app.js:1236 | parsing the students export returns the export table |
| Imports.ExportImports | app.js:1247-1260 | importing the export table into an empty roster adds every student as exported |
| Imports.StudentsCsvRoundTrip | app.js:1232-1260 | exporting a roster and importing the CSV into an empty roster gives back the roster, all rows counted as added |
| Imports.ExportColumns | app.js:1248-1249 | the exported header yields the columns 0, 1 and 2 |
| Imports.SplitCategories | app.js:1197 | the categories read from a cell are all non-empty |
| Imports.TrimNonEmpty | app.js:1197 | trimming and dropping empty parts leaves only non-empty parts |
| Imports.SplitJoinBar | app.js:1197 | splitting a bar-joined list of names that hold no bar gives back the names |
| Imports.CategoriesRoundTrip | app.js:1116 | the categories cell of the questions export reads back as the question's categories when they are trimmed, non-empty and free of bars |
| Imports.AddCategories | app.js:1224 | new categories are appended after the existing ones |
| Imports.AddCategoriesSpec | app.js:1224 | the list stays free of repetitions, takes in every non-empty found category, and holds nothing else |
| Imports.ReadQuestionRows | app.js:1190-1202 | one set of fields per data row |
| Imports.ApplyQuestionSpec | app.js:1192-1224 | one row keeps categories unique; a row without type or text is skipped and changes nothing; an accepted row adds its categories; an added row is appended, with options and an answer when multiple-choice; an updated row keeps the question's id and place |
| Imports.QuestionRowsDistinct | app.js:1190-1225 | the category list stays free of repetitions over the whole file |
| Imports.QuestionRowsCounts | app.js:1190-1225 | the three counts add up to the data rows and the catalog grows by the number added |
| Imports.QuestionFields | app.js:1116 | ten cells per exported question, one per header column |
| Imports.QuestionsTable | app.js:1115-1117 | the export table is the ten-column header followed by one row per question, in bank order |
| Imports.QuestionsExportParses | app.js:1117 | parsing the questions export returns the export table, when no cell holds a line feed |
| Imports.KindTagRoundTrip | app.js:1193 | the exported type tag reads back as the same kind |
| App.Store.constructor | app.js:18-25 | the store starts empty, with no test in progress and the timer stopped |
| App.Store.StartTest | app.js:858-864 | an unknown id reports "Test not found" and starts nothing; otherwise the test is current and the clock is armed with its duration |
| App.Store.SubmitTest | app.js:924-941 | a declined confirmation changes nothing; otherwise the interval is cleared and the submission built from the inputs replaces the student's earlier one for the test |
| App.Store.Tick | app.js:905-915 | the clock moves as one callback says, and the callback that expires it submits the current test |
| App.Store.GradeAnswer | app.js:815-819 | the submissions become the graded ones, or stay and the error is reported |
| App.Store.DeleteTest | app.js:506-509 | after confirmation the test and its submissions are removed |
| App.Store.DeleteStudent | app.js:600-604 | after confirmation the student, their submissions and their assignments are removed; ids stay unique |
| App.Store.UnassignEverywhere | app.js:604 | the loop over tests removes the student from every assignment |
| App.Store.ResetStudent | app.js:588-590 | after confirmation the student's submissions are removed |
| App.Store.DeleteQuestion | app.js:726-729 | after confirmation the question leaves the catalog and every test's copies of it |
| App.Store.DeleteCategory | app.js:436-440 | after confirmation the category leaves the list and every question, and the chip is cleared if it was selected; names stay unique |
| App.Store.SubmitAddCategory | app.js:410-426 | the category list changes as `AddCategory` of the trimmed input says; names stay unique |
| App.Store.AddNamedCategory | app.js:414-426 | the category list changes as `AddTrimmedCategory` says; names stay unique |
| App.Store.OpenAssignTestModal | app.js:486 | the current test is the first with the id, or none |
| App.Store.AssignTestToStudents | app.js:495-498 | the selection becomes the current test's assignment and is written to the stored test |
| App.Store.SaveStudent | app.js:558-575 | the roster, submissions and tests change as `SaveStudent` says; ids stay unique |
| App.Store.SaveTrimmedStudent | app.js:562-575 | the same on trimmed fields |
| App.Store.RenameStudent | app.js:569-570 | the loops rename the student in every submission and assignment |
| App.Store.SaveQuestion | app.js:643-670 | the catalog and the outcome are those of `SaveQuestion` |
| App.Store.SaveTrimmedQuestion | app.js:651-670 | the same on a trimmed form |
| App.Store.SaveTest | app.js:758-777 | the tests become those of `SaveTest`, or stay and the error is reported |
| App.Store.ImportStudentsCsv | app.js:1247-1260 | the roster and counts are those of `ImportStudents` on the parsed text; ids stay unique |
| App.Store.FindStudentColumns | app.js:1247-1249 | the header lookup returns the columns or the reason the file is refused |
| App.Store.ImportStudentRows | app.js:1251-1260 | the row loop ends in the roster and counts of `StudentRows` |
| App.Store.ImportStudentRow | app.js:1253-1259 | one row updates the roster as `ApplyStudent` says |
| App.Store.ImportQuestionsCsv | app.js:1187-1225 | the catalog, categories and counts are those of `ImportQuestions` on the parsed text; categories stay unique |
| App.Store.ImportQuestionRows | app.js:1190-1225 | the row loop ends in the state and counts of `QuestionRows` |
| App.Store.ImportQuestionRow | app.js:1191-1224 | one row updates the catalog and categories as `ApplyQuestion` says |
| App.Store.AddNewCategories | app.js:1224 | the loop appends the found categories as `AddCategories` says |

## Left out

- The remote store (`remoteStore`, Supabase) and the reloads after remote writes: network I/O outside the in-memory core.
- Rendering, charts, modals, `localStorage` persistence, backups and login: DOM and browser storage.
- `confirm` and `alert` are left out. A confirmation is a `confirmed` parameter, and an alert is the returned `Failed(error)`.
- `Date.now()`, `new Date()` and `Math.random()` are left out. Ids and timestamps are parameters (`newId`, `subId`, `now`, `freshIds`).
- `setInterval` scheduling is left out. `Store.Tick` is one callback and `Session.Run` is n callbacks in a row.
- `JSON.parse` of `options_json` is left out. It is the parameter `decodeOptions`.
- The `JSON.stringify` encoding of options in the questions export is left out. It is the parameter `encodeOptions`.
- The exporters' file download (`Blob`, the link and the dated file name) and their refusal to export an empty list are left out: browser I/O and an `alert`. `QuestionsCsv` and `StudentsCsv` are the file text.
- `data.reviews` is left out: no command of the core reads or writes it.
- Scoring.RoundHalfUp: the model uses exact rational arithmetic. The source computes `corr/total*100` in binary floating point first, which can round differently on rare inputs such as 29 of 200.
- Text.ParseDecimal: models `Number` on digit strings only. Signs, decimals, exponents and surrounding white space are not modelled.
- Text.Lower: folds ASCII letters only. JavaScript's `toLowerCase` also folds other Unicode letters.
- App.Store.currentTest: the test is held as a copy, not as an alias of the stored record. `AssignTestToStudents` writes the change through to the first test with the same id, which matches the source only while test ids are unique.
- Scoring.StudentAverage: does not sort the submissions by date. The average does not depend on the order.
- Csv.CsvRoundTrip: holds only for non-empty rows whose cells hold no line feed. The parser splits lines before it looks at quotes, so a line feed inside a cell breaks the row (`Csv.LineFeedInFieldSplitsRow`).
- Commands.SaveTrimmedTest: when a selected id names no question, the source throws in `JSON.parse(undefined)` and adds nothing. The model reports this as `QuestionNotFound`.
- Missing fields of stored records (`q.categories||[]`, `t.assignedStudents||[]`) are not modelled: every record always has every field.
