# Verified model of the Hamamooz school platform

Dafny models of the parts of Hamamooz where correctness is not obvious from one function, with
proofs about all inputs, all runs or all reachable states.  Database tables are maps, rows are
datatypes, and each service function that runs in a transaction is one step.  Where the original
updates rows in place or loops over them, the model is a class or a method with the same loop, proved
against a function of the values before; the theorems are then about these functions.  The files named
`...Laws` and `ImportResult` say what such a function comes to: which calls are accepted, every stored
field, which problems are reported, and every mean as the value about which its parts balance.

| files | subject |
|---|---|
| `Calendar.dfy` | conversion of Jalali birth dates by a cascade of divisions |
| `Text.dfy`, `MetricCatalog.dfy`, `WorkbookSheet.dfy` | the evaluation sheet: template printer and loader |
| `WorkbookValues.dfy`, `PreparedWorkbook.dfy`, `ValidationIssues.dfy`, `ClassValidation.dfy`, `StudentValidation.dfy`, `EvaluationValidation.dfy`, `WorkbookValidation.dfy` | the workbook validator |
| `ValueLaws.dfy`, `ValidationLaws.dfy`, `SheetLaws.dfy` | what cells are read as, what is reported and kept, which sheets are loaded, said of the cells |
| `ImportTables.dfy`, `ImportProperties.dfy`, `ImportReport.dfy`, `WorkbookImport.dfy` | bulk upsert and its report |
| `ImportResult.dfy` | what an import leaves in the tables, field by field, and which imports succeed |
| `TemplateImport.dfy` | from the answers in the template to the stored scores |
| `Notifications.dfy`, `NotificationLaws.dfy` | the dispatch protocol of parent notifications, with concurrent workers |
| `Rounding.dfy`, `Averages.dfy`, `Ranking.dfy`, `Grades.dfy`, `GradeLaws.dfy` | term averages, pass rules and class ranks |
| `Evaluations.dfy`, `AnalyticalReport.dfy`, `EvaluationLaws.dfy` | monthly evaluation analytics and the page that recomputes the score |
| `Attendance.dfy`, `AttendanceLaws.dfy`, `Alerts.dfy`, `AlertLaws.dfy` | attendance sessions, records, excuses and absence alerts |
| `Assessments.dfy`, `AssessmentLaws.dfy` | the workflow of an assessment and its scores |
| `Conflicts.dfy` | overlaps between the workbooks of a data directory |

`Options.dfy` and `Counting.dfy` hold small shared definitions.  `dafny verify dfyconfig.toml` checks
everything.

## Conventions

- Decimals and floats are exact rationals; a decimal read from a cell may also be infinite.  Dates are
  triples; the calendar theorems hold for every Jalali year from 1 on, not only for the accepted range.
- Declared unique constraints are table invariants.  Rows of classes and students are identified by
  their unconditional unique keys; enrollments, of which a student may have several in a year, by id.
- A send is an arbitrary success or failure; the clock is part of the state.  Save times are distinct.
- Reading a decimal number, the digit test, `int` of a digit string and lower case belong to the
  language library and are parameters of the validator.
- The titles of the indicators are a parameter of the sheet: the theorems hold for all titles.
- A workbook that is imported has passed validation; `AcceptedWorkbookIsWellPrepared` is what the
  importer relies on.
- The claims are about the program's own calendar, not about the astronomical one.

## Where the code does less than one might expect

- The validator may end with an exception that nothing catches.  It returns exactly when no cell
  raises (`Validate`; `ReturnsExactly` when the file has one version).  The cells that raise are an
  infinite capacity, a birth date outside the Jalali years with a number above 2147483647, and an
  infinite month or score that is looked at (`RaisingCells`; examples in `HugeBirthYearRaises` and
  `InfiniteCapacityRaises`).  The theorems on kept and reported rows hold whenever it returns, and a
  sound workbook always returns.
- `SENT` is kept, and one send at most succeeds, when every outcome is written within the stale
  window, a worker whose send was accepted does not crash before it writes, and a retry that writes
  finds the row neither `PROCESSING` nor `SENT` (`TimelyDispatch`).  Without such a hypothesis a sent
  row stays `SENT` in every continuation exactly when all workers are done or about to write their
  success and all statuses read by retries are `SENT` (`SentIsKeptExactly`); some run leaves `SENT`
  exactly when something can be sent at all (`LeavesSentExactly`), and some run delivers twice exactly
  when two attempts are allowed as well (`DeliversTwiceExactly`).
- A page that shows only a part of the school may show a better rank than the student's own page
  (`PartialCohortDiffers`).  The two are the same exactly when every higher score of the school occurs
  in the part (`PartialCohortRanks`).
- Student numbers of a validated workbook may repeat (`NumbersMayCollide`), and an import of it is
  then refused (`RepeatedNumberIsRefused`).  They are distinct exactly when every kept row finds its
  written number or its suffixed form unused (`NumbersAreDistinctExactly`); distinct written numbers
  are enough (`DifferentNumbersAreKept`).
- A correction after the lock keeps completeness exactly when it enters a score for an active
  enrollment or clears that of an inactive one (`CorrectionKeepsCompleteness`); both ways of breaking
  it occur (`BothFailuresOccur`).
- A workbook marked as conflicting stays so after its rivals are gone (`MarksAreNotLifted`).

## Model

| member | source | states |
|---|---|---|
| `Calendar.JalaliToGregorian` | Backend/hamamooz/apps/imports/comprehensive_flexible.py:73-104 | the conversion lands on the Gregorian date that has exactly as many days before it, counted one by one, as the Jalali date; `KnownDates` fixes the epoch |
| `Calendar.CascadeToYear` | Backend/hamamooz/apps/imports/comprehensive_flexible.py:83-95 | the 400/100/4/1-year divisions find the year that holds a day number, for every day number, and leave the day within that year |
| `Calendar.MonthScan` | Backend/hamamooz/apps/imports/comprehensive_flexible.py:97-104 | the month loop ends within twelve months on a valid day with the right number of days before it |
| `Calendar.CascadeToGregorian` | Backend/hamamooz/apps/imports/comprehensive_flexible.py:83-104 | cascade and month loop together agree with counting Gregorian days year by year and month by month |
| `Calendar.GregorianOfDayCounts` | Backend/hamamooz/apps/imports/comprehensive_flexible.py:83-104 | the reference is sound: the date counted out for a day number is valid and has that many days before it |
| `Calendar.GregorianDayNumberOrders` | Backend/hamamooz/apps/imports/comprehensive_flexible.py:97-104 | day numbers order Gregorian dates strictly, so no two dates share one |
| `Calendar.YearStart` | Backend/hamamooz/apps/imports/comprehensive_flexible.py:83-95 | closed form of the start of a year split into cycle, century, block and offset |
| `Calendar.JalaliYearLength` | Backend/hamamooz/apps/imports/comprehensive_flexible.py:107-114 | two consecutive new years are 366 days apart exactly in the leap years of the 33-year rule |
| `Calendar.MeasureJalaliMonthLength` | Backend/hamamooz/apps/imports/comprehensive_flexible.py:107-114 | measuring the last month by two conversions gives the length of the leap rule |
| `Calendar.NextDayAgrees` | Backend/hamamooz/apps/imports/comprehensive_flexible.py:73-114 | the day after any valid Jalali date (from year 1 on, over month and year ends) converts to the next Gregorian day |
| `Calendar.ConversionKeepsOrder` | Backend/hamamooz/apps/imports/comprehensive_flexible.py:73-104 | an earlier Jalali date converts to an earlier Gregorian date, so the conversion is injective |
| `Calendar.EveryGregorianDayIsReached` | Backend/hamamooz/apps/imports/comprehensive_flexible.py:73-114 | no Gregorian day from the first converted one on is skipped |
| `Calendar.EightLeapYearsInThirtyThree` | Backend/hamamooz/apps/imports/comprehensive_flexible.py:107-114 | any 33 consecutive years hold exactly 8 leap years |
| `Calendar.KnownDates` | Backend/hamamooz/apps/imports/comprehensive_flexible.py:73-104 | three days with known dates in both calendars are converted to each other; with `NextDayAgrees` one of them fixes the conversion of every date |
| `Calendar.LeapYearsByRemainder` | Backend/hamamooz/apps/imports/comprehensive_flexible.py:76-77 | which remainders of the 33-year cycle are leap years |
| `Calendar.MonthOffsets` | Backend/hamamooz/apps/imports/comprehensive_flexible.py:97-104 | the days before each Gregorian month, in ordinary and in leap years |
| `WorkbookValues.NormalizeBirthDate` | Backend/hamamooz/apps/imports/comprehensive_flexible.py:117-141 | the branches of the birth-date reader decide between native, Jalali, Gregorian, refused and raising values as specified, and tell which dates were converted |
| `WorkbookValues.PrintedDateRaises` | Backend/hamamooz/apps/imports/comprehensive_flexible.py:128-141 | a written date raises if and only if its year is outside 1200..1600 and one of its numbers is above 2147483647 |
| `WorkbookValues.JalaliBirthDateIsConverted` | Backend/hamamooz/apps/imports/comprehensive_flexible.py:117-136 | a date printed in Jalali with any separator is read back as the Gregorian date with the same day number |
| `WorkbookValues.BirthDatesAreNotConfused` | Backend/hamamooz/apps/imports/comprehensive_flexible.py:129-136 | two Jalali dates are stored as one only when they are the same date |
| `WorkbookValues.NationalIdIsCanonical` | Backend/hamamooz/apps/imports/comprehensive_flexible.py:144-154 | an accepted id has ten digits and normalising it again keeps it |
| `WorkbookValues.LostZerosReturn` | Backend/hamamooz/apps/imports/comprehensive_flexible.py:144-154 | an id that lost leading zeros is stored like the full id |
| `WorkbookValues.MetricScoreExactly` | Backend/hamamooz/apps/imports/comprehensive_flexible.py:314-342 | a text is read as a score exactly when it is a number 0 to 5, or four times a score 2 to 5 |
| `ValueLaws.StripDropsOuterSpaces` | Backend/hamamooz/apps/imports/comprehensive_flexible.py:34-39 | trimming drops spaces at both ends, all of them and nothing else |
| `ValueLaws.DigitsAreTranslated` | Backend/hamamooz/apps/imports/comprehensive_flexible.py:17 | Persian and Arabic-Indic digits are read as the digits they are, all other characters as themselves |
| `ValueLaws.LabelsIgnoreSpacing` | Backend/hamamooz/apps/imports/comprehensive_flexible.py:42-45 | in a label spaces and joiners do not count, nor does the form of ye and kaf |
| `ValueLaws.PositiveIntExactly` | Backend/hamamooz/apps/imports/comprehensive_flexible.py:259-267 | a cell is a count if and only if it is a whole number from 1 to the maximum |
| `ValueLaws.RaisingExactly` | Backend/hamamooz/apps/imports/comprehensive_flexible.py:259-267 | reading a number raises if and only if it is infinite, and a named month never does |
| `ValueLaws.MonthExactly` | Backend/hamamooz/apps/imports/comprehensive_flexible.py:648-653 | a cell is a month if and only if it has its name or is its number |
| `ValueLaws.SeparatorsAreDropped` | Backend/hamamooz/apps/imports/comprehensive_flexible.py:144-154 | whatever is not a digit may stand anywhere in a national id |
| `ValueLaws.StudentNumberExactly` | Backend/hamamooz/apps/imports/comprehensive_flexible.py:270-311 | the written number or what stands for it, cut to fifty; when used, the local code follows after a dash, for local codes of any length |
| `ValueLaws.WrittenDateExactly` | Backend/hamamooz/apps/imports/comprehensive_flexible.py:117-141 | a written date is stored if and only if it exists in its calendar, and a Gregorian one as it is |
| `ValueLaws.GradeIsFoundByName` | Backend/hamamooz/apps/imports/comprehensive_flexible.py:157-168 | a class gets the first grade that the cell names by code, title, number or ordinal |
| `StudentValidation.NumbersAreDistinctExactly` | Backend/hamamooz/apps/imports/comprehensive_flexible.py:270-311 | the stored numbers of the student pass are pairwise distinct if and only if every kept row finds its written number or its suffixed form unused |
| `StudentValidation.DifferentNumbersAreKept` | Backend/hamamooz/apps/imports/comprehensive_flexible.py:270-311 | in a sound sheet whose written numbers differ, every student keeps the written number |
| `StudentValidation.NumbersMayCollide` | Backend/hamamooz/apps/imports/comprehensive_flexible.py:297-310 | the suffix is not checked again: a sound sheet of three students of whom two get the same number |
| `MetricCatalog.CatalogFacts` | Backend/hamamooz/apps/evaluations/catalog.py:179-199 | both versions of the catalogue have distinct codes, 46 and 74 of them |
| `WorkbookSheet.MonthsAgree` | Backend/hamamooz/apps/imports/comprehensive_template.py:25-38 | the month names of the template are read as 1 to 12 by the table of the loader |
| `WorkbookSheet.Worksheet.BuildEvaluationSheet` | Backend/hamamooz/apps/imports/comprehensive_template.py:147-223 | the nested loops print, cell by cell, the sheet defined by row and column |
| `WorkbookSheet.Worksheet.EnterScore` | Backend/hamamooz/apps/imports/comprehensive_template.py:244-251 | writing a score cell changes the filled-in form in that one answer |
| `WorkbookSheet.DetectFramework` | Backend/hamamooz/apps/imports/comprehensive.py:134-166 | the version found is the first whose codes and titles fit the header row |
| `WorkbookSheet.PrintedHeaderFits` | Backend/hamamooz/apps/imports/comprehensive.py:124-131 | a printed header, whatever its title, splits back into its code and a title that fits |
| `WorkbookSheet.PrintedVersionIsRecognised` | Backend/hamamooz/apps/imports/comprehensive.py:134-166 | a header row printed for either version is recognised as that version |
| `WorkbookSheet.VersionsAreNotConfused` | Backend/hamamooz/apps/imports/comprehensive.py:134-166 | no header row fits both versions |
| `WorkbookSheet.LoadEvaluationSheet` | Backend/hamamooz/apps/imports/comprehensive.py:206-300 | loading refuses wrong headers and overflow and otherwise returns the rows with a score or note, in order |
| `WorkbookSheet.DerivedCodeIsTheWrittenOne` | Backend/hamamooz/apps/imports/comprehensive.py:281-286 | the local code derived from the running number is the one the template wrote |
| `WorkbookSheet.RoundTrip` | Backend/hamamooz/apps/imports/comprehensive.py:263-300 | scores and notes entered into the template load back as exactly one row per student and month that has any, with the same scores, month, local code and version |
| `WorkbookSheet.PrintFillAndLoad` | Backend/hamamooz/apps/imports/comprehensive_template.py:184-244 | printing the template, entering any answers cell by cell and loading the sheet gives exactly the rows of the answers |
| `SheetLaws.LoadedExactly` | Backend/hamamooz/apps/imports/comprehensive.py:108-218 | a sheet is loaded if and only if its identity headers are right, its columns are those of a version by code and title, and nothing stands below the template |
| `SheetLaws.RowIsLoadedExactly` | Backend/hamamooz/apps/imports/comprehensive.py:263-303 | a row is returned if and only if something was entered in it, with every cell under its indicator and the written or derived local code |
| `SheetLaws.AnsweredRowsAreLoaded` | Backend/hamamooz/apps/imports/comprehensive.py:263-303 | the rows of a loaded sheet are the answered ones between the first and the last, in order |
| `ClassValidation.ValidateClasses` | Backend/hamamooz/apps/imports/comprehensive_flexible.py:392-455 | one pass keeps and reports what folding the rows one by one keeps and reports |
| `ClassValidation.ClassesKeptOrReported` | Backend/hamamooz/apps/imports/comprehensive_flexible.py:394-455 | every class row is kept or has an error |
| `ClassValidation.ClassesAcceptedWhenSound` | Backend/hamamooz/apps/imports/comprehensive_flexible.py:394-455 | no class error exactly when every row is usable and no code occurs twice; then all rows are kept in order |
| `StudentValidation.ValidateStudents` | Backend/hamamooz/apps/imports/comprehensive_flexible.py:458-563 | the student pass, with its growing sets of codes, ids and numbers |
| `StudentValidation.StudentsKeptOrReported` | Backend/hamamooz/apps/imports/comprehensive_flexible.py:463-563 | every student row is kept with its normalised cells or has an error |
| `StudentValidation.StudentsAcceptedWhenSound` | Backend/hamamooz/apps/imports/comprehensive_flexible.py:463-563 | no student error exactly when all rows are usable and neither local codes nor national ids repeat; then all are kept in order |
| `EvaluationValidation.ValidateEvaluations` | Backend/hamamooz/apps/imports/comprehensive_flexible.py:566-734 | the evaluation pass, including the choice of the version |
| `EvaluationValidation.CheckMetrics` | Backend/hamamooz/apps/imports/comprehensive_flexible.py:674-705 | the indicator loop reports exactly the unknown codes and unreadable scores |
| `EvaluationValidation.EvaluationsKeptOrReported` | Backend/hamamooz/apps/imports/comprehensive_flexible.py:585-734 | every evaluation row is kept or has an error |
| `EvaluationValidation.EvaluationsAcceptedWhenSound` | Backend/hamamooz/apps/imports/comprehensive_flexible.py:585-734 | no evaluation error exactly when every row is usable by itself and no student and month repeat |
| `WorkbookValidation.CheckCapacities` | Backend/hamamooz/apps/imports/comprehensive_flexible.py:736-750 | exactly the classes with more students than places are reported |
| `WorkbookValidation.Validate` | Backend/hamamooz/apps/imports/comprehensive_flexible.py:345-759 | the validator in one call: it returns or raises as its cells do; when it returns, rows are kept or reported, an empty report means a sound workbook and the other way round, and then the result is what the importer relies on; a sound workbook returns |
| `WorkbookValidation.ReturnsExactly` | Backend/hamamooz/apps/imports/comprehensive_flexible.py:345-759 | a workbook with at most one version returns if and only if no cell raises |
| `WorkbookValidation.RaisingCells` | Backend/hamamooz/apps/imports/comprehensive_flexible.py:117-342 | which cells raise, in terms of the cells of the file |
| `WorkbookValidation.HugeBirthYearRaises` | Backend/hamamooz/apps/imports/comprehensive_flexible.py:138-141 | a birth date in the year 99999999999 ends the validation of any workbook |
| `WorkbookValidation.InfiniteCapacityRaises` | Backend/hamamooz/apps/imports/comprehensive_flexible.py:261-269 | so does an infinite capacity |
| `WorkbookValidation.SoundWorkbookReturns` | Backend/hamamooz/apps/imports/comprehensive_flexible.py:345-759 | a sound workbook is never ended by an exception |
| `WorkbookValidation.ResolvedYearExactly` | Backend/hamamooz/apps/imports/comprehensive_flexible.py:171-246 | several written codes resolve exactly when they name one year, a single one when it names any, and otherwise the only current, active or existing year is taken |
| `WorkbookValidation.EveryRowIsKeptOrReported` | Backend/hamamooz/apps/imports/comprehensive_flexible.py:391-750 | whenever the validator returns, every row of the three sheets is in the result or has at least one error |
| `WorkbookValidation.AcceptedWorkbookIsWellPrepared` | Backend/hamamooz/apps/imports/comprehensive_flexible.py:391-759 | without errors: all rows kept in order, codes, local codes, ten-digit ids and (student, month) distinct, references resolve, scores 0 to 5, one version, year known, no class over capacity |
| `WorkbookValidation.AcceptedExactlyWhenSound` | Backend/hamamooz/apps/imports/comprehensive_flexible.py:391-759 | there are no errors if and only if the rows, after their cells are read, fulfil the stated conditions, which mention no result of the passes |
| `ValidationLaws.ReportIsExact` | Backend/hamamooz/apps/imports/comprehensive_flexible.py:345-759 | an issue is reported if and only if its problem exists where the issue says: each problem of a class, student or evaluation row, the year, mixed versions and overfull classes, each spelled out |
| `ValidationLaws.ClassErrorsAreTheProblems` | Backend/hamamooz/apps/imports/comprehensive_flexible.py:392-455 | reported for a class row are exactly its problems |
| `ValidationLaws.KeptClassesAreTheUsableRows` | Backend/hamamooz/apps/imports/comprehensive_flexible.py:392-455 | kept are exactly the class rows without a problem, with their values |
| `ValidationLaws.StudentErrorsAreTheProblems` | Backend/hamamooz/apps/imports/comprehensive_flexible.py:458-563 | reported for a student row are exactly its problems, given the students kept before |
| `ValidationLaws.EvaluationErrorsAreTheProblems` | Backend/hamamooz/apps/imports/comprehensive_flexible.py:566-735 | reported for an evaluation row are exactly its identity problems and the first problem of its month and answers |
| `ValidationLaws.AcceptedRowsCarryTheirCells` | Backend/hamamooz/apps/imports/comprehensive_flexible.py:345-759 | in an accepted workbook every class, student and evaluation carries the cells of its own row, field by field |
| `ValidationLaws.AnsweringYearIsNamed` | Backend/hamamooz/apps/imports/comprehensive_flexible.py:171-205 | a year answers if and only if some row of the class sheet names it by code or title |
| `ValidationLaws.SeveralYearsAreWritten` | Backend/hamamooz/apps/imports/comprehensive_flexible.py:171-178 | the file has several years if and only if two rows write different ones |
| `WorkbookImport.Importer.UpsertClasses` | Backend/hamamooz/apps/imports/comprehensive.py:641-668 | upsert of classes in terms of the table before, with its counters |
| `WorkbookImport.Importer.UpsertStudents` | Backend/hamamooz/apps/imports/comprehensive.py:670-693 | upsert of students, restoring deleted ones |
| `WorkbookImport.Importer.FindLatest` | Backend/hamamooz/apps/imports/comprehensive.py:695-703 | the scan finds the enrollment saved last, deleted or not |
| `WorkbookImport.Importer.UpsertEnrollments` | Backend/hamamooz/apps/imports/comprehensive.py:704-733 | enrolls in order and refuses a student active in another school or a broken unique constraint; `StudentsAreEnrolled` spells out the rows |
| `WorkbookImport.Importer.CheckCapacity` | Backend/hamamooz/apps/imports/comprehensive.py:735-745 | accepts exactly when every class of the file has at most its capacity of live enrollments |
| `WorkbookImport.Importer.UpsertEvaluations` | Backend/hamamooz/apps/imports/comprehensive.py:747-790 | upsert of evaluations and scores with all counters |
| `WorkbookImport.Importer.ApplyWorkbook` | Backend/hamamooz/apps/imports/comprehensive.py:622-793 | one transaction: the tables after it, or the tables before it when refused; `ImportResult` spells out what is stored |
| `ImportProperties.EnrollmentsPut` | Backend/hamamooz/apps/imports/comprehensive.py:695-733 | after enrolling, each student has exactly the written enrollment under the latest existing id or a fresh one, all others are untouched and the unique constraints hold |
| `ImportProperties.AppliedIsInPlace` | Backend/hamamooz/apps/imports/comprehensive.py:622-793 | success puts every row of the workbook in place and leaves every class of the file within capacity; `StudentsAreEnrolled` gives each the grade of the own class |
| `ImportProperties.InPlaceIsFixed` | Backend/hamamooz/apps/imports/comprehensive.py:622-793 | when all rows are in place, applying succeeds and changes only save times and the origin of evaluations |
| `ImportProperties.ImportingTwice` | Backend/hamamooz/apps/imports/comprehensive.py:622-793 | applying the same workbook twice, also by another job of the school, leaves the tables of applying it once |
| `ImportProperties.RepeatedNumberIsRefused` | Backend/hamamooz/apps/imports/comprehensive.py:704-733 | an import succeeds only if the student numbers of the workbook are distinct |
| `ImportProperties.ApplyKeepsTablesValid` | Backend/hamamooz/apps/students/models.py:178-191 | success keeps one active enrollment per student and year, one active number per school and year, and all references |
| `ImportProperties.NoClassOrStudentIsRemoved` | Backend/hamamooz/apps/imports/comprehensive.py:641-693 | no class or student disappears and unnamed ones are unchanged |
| `ImportProperties.NoEnrollmentIsRemoved` | Backend/hamamooz/apps/imports/comprehensive.py:695-733 | no enrollment disappears and only the latest one of a student of the file is written |
| `ImportProperties.NoScoreIsRemoved` | Backend/hamamooz/apps/imports/comprehensive.py:747-786 | no score disappears and a score the file does not mention keeps its value |
| `TemplateImport.EnteredScoresAreStored` | Backend/hamamooz/apps/imports/comprehensive.py:263-300 | a sheet that was printed, filled in, loaded, accepted and applied leaves every entered score, as it reads, with the latest enrollment of its student, its month and version |
| `WorkbookImport.Importer.SnapshotChangeCounts` | Backend/hamamooz/apps/imports/comprehensive_hardening.py:173-300 | the loops of the snapshot compute the counts defined row by row |
| `ImportReport.EnrollmentUnchangedMeansUntouched` | Backend/hamamooz/apps/imports/comprehensive_hardening.py:240-256 | an enrollment counts as unchanged exactly when applying would change no more than its save time |
| `ImportReport.EvaluationUnchangedMeansUntouched` | Backend/hamamooz/apps/imports/comprehensive_hardening.py:258-288 | an evaluation counts as unchanged exactly when applying would leave its note and scores |
| `ImportReport.UnchangedMeansUntouched` | Backend/hamamooz/apps/imports/comprehensive_hardening.py:186-221 | a class or student counts as unchanged exactly when applying would leave its row |
| `ImportReport.ReportAddsUp` | Backend/hamamooz/apps/imports/comprehensive_hardening.py:303-339 | created + updated + unchanged is the number of rows in the file for every table, and of scores upserted, and the subtraction is never cut off at zero |
| `ImportReport.SecondImportReportsUnchanged` | Backend/hamamooz/apps/imports/comprehensive_hardening.py:303-339 | the second import of a file reports every row and score as unchanged |
| `ImportResult.ClassesAndStudentsAreStored` | Backend/hamamooz/apps/imports/comprehensive.py:641-693 | after an import every class and student is stored with all its fields |
| `ImportResult.StudentsAreEnrolled` | Backend/hamamooz/apps/imports/comprehensive.py:695-733 | and every student has a latest enrollment in the own class, with its grade, number, year, school and dates |
| `ImportResult.AnswersBelongToTheStudent` | Backend/hamamooz/apps/imports/comprehensive.py:747-786 | and every evaluation is stored with that enrollment, with note, scores, author and job |
| `ImportResult.CreatedRowsAreNew` | Backend/hamamooz/apps/imports/comprehensive.py:641-779 | each table grows by exactly the rows that are reported as created |
| `ImportResult.CreatedScoresAreNew` | Backend/hamamooz/apps/imports/comprehensive_hardening.py:257-287 | the stored scores grow by exactly the scores that are reported as created |
| `ImportResult.ImportSucceedsExactly` | Backend/hamamooz/apps/imports/comprehensive.py:706-745 | an import succeeds if and only if the student numbers differ, no student is hindered by a live enrollment, and no class of the file is overfull |
| `ImportResult.FinalsScoreEveryIndicator` | Backend/hamamooz/apps/imports/comprehensive.py:787-790 | reported as final are exactly the evaluations that score every indicator of their version |
| `WorkbookImport.Importer.ApplyHardened` | Backend/hamamooz/apps/imports/comprehensive_hardening.py:303-339 | snapshot, apply and report in one call, with sums that add up and tables that stay valid |
| `Notifications.ParentNotification.Claim` | Backend/hamamooz/apps/attendance/notifications.py:64-87 | a claim changes the row as the protocol's claim event does |
| `Notifications.ParentNotification.RecordFailure` | Backend/hamamooz/apps/attendance/notifications.py:131-161 | a failure writes backoff or dead letter without looking at the status again |
| `Notifications.ParentNotification.Dispatch` | Backend/hamamooz/apps/attendance/notifications.py:90-161 | one whole dispatch, for any outcome of the send |
| `Notifications.ParentNotification.MarkSent` | Backend/hamamooz/apps/attendance/models.py:626-633 | marking as sent clears the error and the next attempt |
| `Notifications.ParentNotification.Retry` | Backend/hamamooz/apps/attendance/views.py:400-410 | a manual retry queues anything that was not read as sent |
| `Notifications.AttemptsBounded` | Backend/hamamooz/apps/attendance/notifications.py:64-161 | in every interleaving sends started <= attempts <= maximum; FAILED has an attempt left and a time; DEAD_LETTER has none left |
| `Notifications.FreshRunsAreBounded` | Backend/hamamooz/apps/attendance/notifications.py:64-161 | the same bounds for every run of a new notification |
| `Notifications.AtMostOneDelivery` | Backend/hamamooz/apps/attendance/notifications.py:64-161 | in every timely interleaving at most one worker is busy, at most one send is accepted and SENT is never left |
| `Notifications.TimelyDispatch` | Backend/hamamooz/apps/attendance/notifications.py:64-161 | the same for a notification from its creation, comparing any two moments of a run |
| `Notifications.SentIsLeftBy` | Backend/hamamooz/apps/attendance/notifications.py:64-161 | exactly which three writes can take a row out of SENT |
| `Notifications.SentIsKeptExactly` | Backend/hamamooz/apps/attendance/notifications.py:64-161 | a sent row stays SENT in every continuation if and only if every worker is done or about to write its success and every status read by a retry is SENT |
| `Notifications.LeavesSentExactly` | Backend/hamamooz/apps/attendance/notifications.py:64-161 | some run of a new notification leaves SENT if and only if its channel and recipient allow a send and one attempt is allowed |
| `Notifications.DeliversTwiceExactly` | Backend/hamamooz/apps/attendance/notifications.py:64-161 | some run of a new notification has two accepted sends if and only if a send is possible and two attempts are allowed |
| `Notifications.LateFailureOverwritesSent` | Backend/hamamooz/apps/attendance/notifications.py:131-161 | without timeliness a late failure turns a delivered notification into FAILED |
| `Notifications.RetryDuringSendDeliversTwice` | Backend/hamamooz/apps/attendance/views.py:400-410 | a retry in the middle of a send lets two sends be accepted |
| `Notifications.RetryReadBeforeClaimUndoesSent` | Backend/hamamooz/apps/attendance/views.py:400-410 | a retry that read the status before the claim takes a delivered row out of SENT although nothing was late and no PROCESSING row was met |
| `Notifications.BackoffIsKept` | Backend/hamamooz/apps/attendance/notifications.py:64-87 | until its time a failed row that nobody retries is not touched by any event |
| `Notifications.BackoffDoublesUpToAnHour` | Backend/hamamooz/apps/attendance/notifications.py:131-161 | the waiting time doubles per attempt up to one hour |
| `Notifications.ExhaustedNeverClaims` | Backend/hamamooz/apps/attendance/notifications.py:64-87 | with all attempts used no claim is granted again, retried or not |
| `NotificationLaws.ClaimExactly` | Backend/hamamooz/apps/attendance/notifications.py:64-87 | a claim is granted if and only if attempts are left, the row waits no longer, and it is queued, failed or stale; it takes one attempt |
| `NotificationLaws.ClaimBuriesExactly` | Backend/hamamooz/apps/attendance/notifications.py:64-87 | what a refused claim changes: a row that could be claimed but has no attempt left becomes a dead letter |
| `NotificationLaws.FailureIsTriedAgainFrom` | Backend/hamamooz/apps/attendance/notifications.py:131-161 | a failed row can be claimed exactly from 1, 2, 4, 8, 16, 32 or 60 minutes on, and never without attempts left |
| `NotificationLaws.ClaimGoesStaleAfter` | Backend/hamamooz/apps/attendance/notifications.py:64-87 | a row that was taken can be claimed again exactly after the stale time |
| `NotificationLaws.OutcomesExactly` | Backend/hamamooz/apps/attendance/notifications.py:90-161 | the fields a success, a skip and a retry leave, and that only the retried row can be claimed again |
| `NotificationLaws.EventsInARowAreOneDispatch` | Backend/hamamooz/apps/attendance/notifications.py:90-161 | in every reachable state a claim and the events of its worker, taken in a row, are one dispatch |
| `Rounding.QuantizeMonotone` | Backend/hamamooz/apps/academics/calculations.py:58-67 | quantising keeps order in all three modes |
| `Rounding.QuantizeFixesExactlyTheGrid` | Backend/hamamooz/apps/academics/calculations.py:58-67 | quantising fixes exactly the values of the grid |
| `Rounding.QuantizeIsNear` | Backend/hamamooz/apps/academics/calculations.py:58-67 | the result is within half a unit, or one unit when cutting |
| `Rounding.TiesAreBrokenByMode` | Backend/hamamooz/apps/academics/calculations.py:58-67 | how each mode decides a tie |
| `Grades.Gradebook.AverageSubject` | Backend/hamamooz/apps/academics/calculations.py:92-113 | the two accumulated sums give the rounded weighted average of one subject and its pass; `SubjectAverageBalances` says what it is |
| `Grades.Gradebook.CalculateEnrollmentTerm` | Backend/hamamooz/apps/academics/calculations.py:79-146 | stores every subject result and the term result of one enrollment and nothing else; `TermAverageBalances` says what it is |
| `Grades.SubjectAverageInRange` | Backend/hamamooz/apps/academics/calculations.py:70-113 | every subject average lies in [0, 20] for positive weights and any mode |
| `Grades.TermAverageBetweenSubjects` | Backend/hamamooz/apps/academics/calculations.py:115-146 | the term average lies between the smallest and the largest rounded subject average |
| `Grades.PassingEverySubjectPassesTheTerm` | Backend/hamamooz/apps/academics/calculations.py:115-146 | when each subject pass mark is at least the overall mark, a complete student passes the term exactly when every subject is passed |
| `Grades.Gradebook.RecalculateClassTerm` | Backend/hamamooz/apps/academics/calculations.py:149-178 | after recalculation the stored ranks are the dense ranks of the new averages; ranks of the class stored before are cleared |
| `GradeLaws.NormalizedScoreExactly` | Backend/hamamooz/apps/academics/calculations.py:70-76 | a present score keeps its share of the maximum, an unexcused absence is zero where the policy says so, nothing else has a value |
| `GradeLaws.SubjectAverageBalances` | Backend/hamamooz/apps/academics/calculations.py:94-122 | the subject average is the value about which the weighted released scores balance, rounded; there is one exactly when some score takes part; the pass mark decides |
| `GradeLaws.BalancePointIsUnique` | Backend/hamamooz/apps/academics/calculations.py:103-112 | there is no second value about which they balance |
| `GradeLaws.AverageOfOneScore` | Backend/hamamooz/apps/academics/calculations.py:70-112 | a subject with one released score has it as its average, brought to the scale of 20 and rounded |
| `GradeLaws.RaisingAScoreNeverHurts` | Backend/hamamooz/apps/academics/calculations.py:70-113 | raising a present score lowers no average and fails no passed subject |
| `GradeLaws.TermAverageBalances` | Backend/hamamooz/apps/academics/calculations.py:124-146 | the term average is where the subject averages balance by coefficient, rounded; the term is passed exactly under the spelled-out conditions |
| `GradeLaws.OfferingsAreTheActiveOnes` | Backend/hamamooz/apps/academics/calculations.py:81-87 | the subjects of a term are the active offerings of the class in it |
| `GradeLaws.RosterMeansEnrolledOnSomeDay` | Backend/hamamooz/apps/academics/calculations.py:150-159 | the roster of a term holds exactly who belongs to the class on some day of it |
| `Ranking.AssignDenseRanks` | Backend/hamamooz/apps/academics/calculations.py:163-178 | the sorted scan assigns 1 + the number of distinct higher scores |
| `Ranking.RankOrdersScores` | Backend/hamamooz/apps/academics/calculations.py:163-178 | a higher score has a smaller rank and equal scores share one |
| `Ranking.RanksAreContiguous` | Backend/hamamooz/apps/academics/calculations.py:163-178 | the ranks in use are 1 to k without gaps |
| `Ranking.RanksStayInRange` | Backend/hamamooz/apps/academics/calculations.py:163-178 | every rank lies between 1 and the number of distinct scores |
| `GradeLaws.StoredRanksFollowAverages` | Backend/hamamooz/apps/academics/calculations.py:161-178 | stored ranks: none without an average, the better average first, equal for equal ones, 1 exactly for the best |
| `Evaluations.SummarizeEvaluation` | Backend/hamamooz/apps/evaluations/services.py:56-155 | grouping and scoring the domains gives the summary defined indicator by indicator |
| `Evaluations.OverallScoreInRange` | Backend/hamamooz/apps/evaluations/services.py:93-126 | the overall score exists exactly when some indicator takes part and lies in [0, 20] |
| `Evaluations.FinalAtThreshold` | Backend/hamamooz/apps/evaluations/services.py:110-116 | final exactly when the share of catalogued indicators reaches the configured percentage, cut to 1..100 |
| `Evaluations.CompletionInRange` | Backend/hamamooz/apps/evaluations/services.py:110-116 | the completion percentage lies in [0, 100] and a complete evaluation has 100 and is final |
| `Evaluations.FinalEvaluationHasScore` | Backend/hamamooz/apps/evaluations/services.py:110-126 | a final evaluation has a score and a level, whatever the configured threshold |
| `Evaluations.FinalStudentHasScore` | Backend/hamamooz/apps/evaluations/services.py:168-220 | the same for a student over all months |
| `Evaluations.CohortRanks` | Backend/hamamooz/apps/evaluations/services.py:363-390 | the cohort's rank table gives each student the dense rank among the ranked ones |
| `Evaluations.StudentRank` | Backend/hamamooz/apps/evaluations/services.py:315-360 | so does the scan for a single student, who gets no rank when not among the candidates |
| `Evaluations.RankingsAgree` | Backend/hamamooz/apps/evaluations/services.py:315-390 | for the same candidates the rank does not depend on the order in which they are listed |
| `Evaluations.PartialCohortRanks` | Backend/hamamooz/apps/evaluations/services.py:315-390 | within a part of the candidates a rank is at most the rank among all, and equal if and only if every higher score occurs in the part |
| `Evaluations.PartialCohortDiffers` | Backend/hamamooz/apps/evaluations/views.py:229-263 | a reader who sees one of two classes reads rank 1 where the school has rank 2 |
| `Evaluations.RankBothWays` | Backend/hamamooz/apps/evaluations/services.py:315-390 | the rank computed for a cohort of candidates and the one computed for the student alone: at most it, equal exactly when the cohort has every higher score, and equal with the same counts when the cohort is all candidates |
| `Evaluations.DistributionIsComplete` | Backend/hamamooz/apps/evaluations/services.py:412-444 | the performance distribution sums to the number of ranked students |
| `EvaluationLaws.DomainLineExactly` | Backend/hamamooz/apps/evaluations/services.py:65-108 | every domain has its line: weight, count, and the value about which its indicators balance, rounded |
| `EvaluationLaws.OverallScoreBalances` | Backend/hamamooz/apps/evaluations/services.py:110-130 | the overall score is where the domain scores balance by weight, rounded; level and completion follow from it |
| `EvaluationLaws.StudentScoreBalances` | Backend/hamamooz/apps/evaluations/services.py:168-220 | a student is final with the last month; the score is where the months that count balance; the level is the one it earns |
| `EvaluationLaws.RanksFollowScores` | Backend/hamamooz/apps/evaluations/services.py:315-390 | exactly the final students with a score are ranked; the higher score first, rank 1 with nobody above |
| `EvaluationLaws.CountsGrowByOne` | Backend/hamamooz/apps/evaluations/services.py:412-444 | ranked students and students of a level are counted one by one |
| `AnalyticalReport.NormalizeDomainScores` | Frontend/src/components/analytical-report.js:450-497 | the two maps give every domain its usable summary row first and the mean of its indicators second |
| `AnalyticalReport.DomainsAreClose` | Frontend/src/components/analytical-report.js:450-497 | page and service take the same domains with the same weights and values within half a hundredth |
| `AnalyticalReport.OverallScoresAgree` | Frontend/src/components/analytical-report.js:419-497 | for any mixture of summary rows as the service sends them and recomputed domains, the overall scores of page and service are both there or both missing, lie in [0, 20] and differ by at most 0.01 |
| `AnalyticalReport.ServiceRowsAreFaithful` | Frontend/src/components/analytical-report.js:371-397 | a summary row of the service is read as its score and weight |
| `AnalyticalReport.RecomputedScoresAgree` | Frontend/src/components/analytical-report.js:419-497 | the same agreement from the raw rows alone |
| `EvaluationLaws.UnitsAgree` | Frontend/src/components/analytical-report.js:326-339 | the same achievement reads as the same percentage in every unit |
| `EvaluationLaws.SharesAreKept` | Frontend/src/components/analytical-report.js:326-339 | a value keeps its share of its scale, and exactly the values on a scale are read |
| `EvaluationLaws.PageRoundsTiesUp` | Frontend/src/components/analytical-report.js:419-428 | the page rounds to the nearest hundredth, ties upwards |
| `EvaluationLaws.SentValueComesFirst` | Frontend/src/components/analytical-report.js:450-497 | a domain shows its last summary row when that can be read, and the mean of its indicators only otherwise |
| `Attendance.AttendanceService.BulkRecord` | Backend/hamamooz/apps/attendance/services.py:96-193 | bulk recording writes all items or none |
| `Attendance.AttendanceService.CorrectRecord` | Backend/hamamooz/apps/attendance/services.py:196-271 | a correction and its audit revision |
| `Attendance.AttendanceService.FinalizeSession` | Backend/hamamooz/apps/attendance/services.py:274-314 | finalising succeeds only with exactly one record for each active enrollment |
| `Attendance.AttendanceService.CancelSession` | Backend/hamamooz/apps/attendance/services.py:317-339 | cancelling a draft session |
| `Attendance.AttendanceService.SubmitExcuse` | Backend/hamamooz/apps/attendance/services.py:342-397 | an excuse request and its revision |
| `Attendance.AttendanceService.ReviewExcuse` | Backend/hamamooz/apps/attendance/services.py:400-451 | a review decides status and excuse together |
| `Attendance.EveryRecordIsAudited` | Backend/hamamooz/apps/attendance/services.py:96-451 | in every reachable state a record's revision is 1 + its history length, consecutive snapshots chain to the current one, and absent_excused means an approved excuse with a reviewer |
| `Attendance.RunKeepsConsistent` | Backend/hamamooz/apps/attendance/models.py:322-368 | the model's own validation and the audit chain hold after every run |
| `Attendance.ClosedSessionsStayClosed` | Backend/hamamooz/apps/attendance/services.py:89-339 | FINALIZED and CANCELLED are terminal over every run |
| `Attendance.FinalizedRosterIsFixed` | Backend/hamamooz/apps/attendance/services.py:274-339 | a finalised session had one record per active enrollment and no later step adds or removes one |
| `AttendanceLaws.BulkExactly` | Backend/hamamooz/apps/attendance/services.py:97-193 | a bulk request is accepted if and only if the session is a draft and the students attend, are named once and are recordable; then every record holds what was sent, with its revision, and nothing else changes |
| `AttendanceLaws.CorrectionExactly` | Backend/hamamooz/apps/attendance/services.py:197-271 | a correction overwrites what it carries, counts the minutes anew, ends any excuse, and is refused exactly when the student would be excused without one |
| `AttendanceLaws.SubmitExactly` | Backend/hamamooz/apps/attendance/services.py:343-397 | an excuse can be asked for exactly for an absence and with a reason; what is then stored |
| `AttendanceLaws.ReviewExactly` | Backend/hamamooz/apps/attendance/services.py:401-451 | when an excuse is approved or rejected, and that approval makes the absence excused and rejection unexcused |
| `AttendanceLaws.FinalizeExactly` | Backend/hamamooz/apps/attendance/services.py:275-314 | a draft is finalised if and only if the students with a record are those that attend; its stamps |
| `AttendanceLaws.CancelExactly` | Backend/hamamooz/apps/attendance/services.py:318-339 | a draft is cancelled, and the reason joins its notes on a line of its own |
| `Alerts.MetricsMap` | Backend/hamamooz/apps/attendance/selectors.py:89-138 | one pass over the records gives every listed enrollment its six counters and percentage, and zeros to those without records |
| `Alerts.CountersAddUp` | Backend/hamamooz/apps/attendance/selectors.py:93-107 | absences are the unexcused plus, when asked for, the excused ones, and no counter exceeds the sessions |
| `Alerts.RangesAddUp` | Backend/hamamooz/apps/attendance/selectors.py:78-107 | the counters of a range are those of its two parts added |
| `Alerts.ScopesAddUp` | Backend/hamamooz/apps/attendance/selectors.py:78-107 | the counters without a scope are those of the two scopes added |
| `Alerts.PercentInRange` | Backend/hamamooz/apps/attendance/selectors.py:119-138 | absence percentages lie between 0 and 100 |
| `Alerts.AskedRangeIsKept` | Backend/hamamooz/apps/attendance/selectors.py:65-75 | an asked range gives exactly its days within the year, or one day at the end of the year it misses |
| `Alerts.LookbackIsTheLatestDays` | Backend/hamamooz/apps/attendance/selectors.py:65-75 | looking back takes the latest days of the year so far, as many as asked or as there are |
| `Alerts.AlertService.EvaluatePolicy` | Backend/hamamooz/apps/attendance/services.py:623-741 | the service's loops settle every enrollment and scope; `EvaluationExactly` says what it is |
| `Alerts.EvaluationAgreesWithMetrics` | Backend/hamamooz/apps/attendance/services.py:623-741 | after an evaluation an enrollment has an active alert exactly when its metrics reach a threshold, with that severity and those counts, and only one; critical exactly when a critical threshold is reached |
| `Alerts.ReevaluationChangesNothing` | Backend/hamamooz/apps/attendance/services.py:623-741 | evaluating unchanged data again creates and resolves no alert and queues nothing |
| `Alerts.AlertHistory` | Backend/hamamooz/apps/attendance/models.py:488-496 | over every run there stays at most one active alert per policy, enrollment and scope; no alert disappears and resolved ones never change |
| `Alerts.AlertService.AcknowledgeAlert` | Backend/hamamooz/apps/attendance/services.py:785-802 | acknowledging acts on open alerts only, and keeps the declared constraint |
| `Alerts.AlertService.ResolveAlert` | Backend/hamamooz/apps/attendance/services.py:805-822 | resolving acts on active alerts only, and keeps the declared constraint |
| `AlertLaws.OneRecordCounts` | Backend/hamamooz/apps/attendance/selectors.py:89-138 | what one more record adds to each counter |
| `AlertLaws.PercentIsTheShare` | Backend/hamamooz/apps/attendance/selectors.py:89-138 | the percentage is the share of absences to the nearest hundredth |
| `AlertLaws.EvaluationExactly` | Backend/hamamooz/apps/attendance/services.py:624-783 | a whole evaluation, exactly: what becomes of every alert, which alerts are new and with which fields, and which notifications are queued |
| `AlertLaws.ActiveAlertsAreTheDueOnes` | Backend/hamamooz/apps/attendance/services.py:655-723 | afterwards a subject has an active alert of a severity if and only if that severity is due, and never two |
| `AlertLaws.PolicyIsMeasured` | Backend/hamamooz/apps/attendance/services.py:624-656 | what a policy is evaluated with: the counters of each enrollment and scope in the last days of the year up to today |
| `Assessments.AssessmentService.Transition` | Backend/hamamooz/apps/academics/services.py:50-68 | a guarded status change with its stamps |
| `Assessments.AssessmentService.SubmitAssessment` | Backend/hamamooz/apps/academics/services.py:71-80 | submission needs a complete roster of scores |
| `Assessments.AssessmentService.LockAssessment` | Backend/hamamooz/apps/academics/services.py:108-117 | locking needs a complete roster of scores and an approval |
| `Assessments.AssessmentService.BulkUpsertScores` | Backend/hamamooz/apps/academics/services.py:156-187 | all entries are written or none; `BulkUpsertExactly` says what is accepted and stored |
| `Assessments.AssessmentService.CorrectLockedScore` | Backend/hamamooz/apps/academics/services.py:190-208 | a correction of a locked score with its reason; `AssessmentLaws.CorrectionExactly` says what is accepted and stored |
| `Assessments.ScoresAreRecorded` | Backend/hamamooz/apps/academics/services.py:120-153 | in every reachable state a score's revision is the number of its revision rows, which chain to its value, status and note |
| `Assessments.VersionCountsTransitions` | Backend/hamamooz/apps/academics/services.py:50-68 | the workflow version grows by exactly the number of transitions of a run |
| `Assessments.ReviewFreezesScores` | Backend/hamamooz/apps/academics/services.py:156-187 | since the last submit no score or history changes while the assessment is under review |
| `Assessments.LockedStaysLocked` | Backend/hamamooz/apps/academics/services.py:50-68 | LOCKED is terminal over every run |
| `Assessments.LockedScoresAreTheSubmittedOnes` | Backend/hamamooz/apps/academics/services.py:19-117 | the locked scores are the submitted ones and match the enrollments active on the assessment date |
| `Assessments.CorrectionKeepsCompleteness` | Backend/hamamooz/apps/academics/services.py:190-208 | an accepted correction keeps completeness if and only if it enters a score exactly for an active enrollment |
| `Assessments.CorrectionMayUndoCompleteness` | Backend/hamamooz/apps/academics/services.py:190-208 | clearing the score of an active enrollment breaks completeness |
| `Assessments.CorrectionMayScoreTheInactive` | Backend/hamamooz/apps/academics/services.py:190-208 | so does a score for an enrollment that left before the assessment |
| `Assessments.BothFailuresOccur` | Backend/hamamooz/apps/academics/services.py:190-208 | a locked and complete assessment on which both corrections are accepted and break completeness |
| `AssessmentLaws.BulkUpsertExactly` | Backend/hamamooz/apps/academics/services.py:156-187 | a bulk entry is accepted if and only if the assessment is editable, no enrollment is sent twice and every entry is admissible; then every entry is stored as sent, with its revision, and everything else stays |
| `AssessmentLaws.CorrectionExactly` | Backend/hamamooz/apps/academics/services.py:190-208 | when a correction of a locked score is accepted, and that the score is then stored as sent with the reason |
| `AssessmentLaws.TransitionsExactly` | Backend/hamamooz/apps/academics/services.py:50-117 | from which status each change is accepted, what it stamps and what it clears |
| `AssessmentLaws.CompletenessExactly` | Backend/hamamooz/apps/academics/services.py:19-47 | scores are complete if and only if some student attends and those that attend are those with an entered score |
| `Conflicts.DataDirectoryScanner.RefreshConflicts` | Backend/hamamooz/apps/imports/data_directory.py:374-456 | one refresh in terms of the tables before, with the reported counts |
| `Conflicts.AllCreated` | Backend/hamamooz/apps/imports/data_directory.py:389-430 | the three dictionaries together give one open scanner conflict for each checksum, class or student shared by two usable workbooks, and no other |
| `Conflicts.OverlapsAreReported` | Backend/hamamooz/apps/imports/data_directory.py:389-430 | two usable workbooks that share a checksum, class or student are in one open conflict |
| `Conflicts.ValidManifestsDoNotOverlap` | Backend/hamamooz/apps/imports/data_directory.py:432-455 | no workbook left valid shares a detected class with another usable one |
| `Conflicts.RefreshingAgainChangesNothing` | Backend/hamamooz/apps/imports/data_directory.py:374-456 | a second refresh keeps statuses, records of people and the reported groups, and every open conflict returns with the same contents |
| `Conflicts.MarksAreNotLifted` | Backend/hamamooz/apps/imports/data_directory.py:432-455 | a refresh makes no workbook valid again; it only marks those with a disputed class |
| `Conflicts.ConflictsAreTheSharedGroups` | Backend/hamamooz/apps/imports/data_directory.py:389-430 | open scanner conflicts exist for exactly the groups that two usable workbooks share, and name exactly the workbooks that do |
| `Conflicts.MarkedExactly` | Backend/hamamooz/apps/imports/data_directory.py:432-455 | marked are exactly the valid workbooks of which an open conflict disputes a class |

## Left out

- Storage of files, checksums, e-mail and SMS back ends, task queues, cell styles, column widths and document rendering: foreign calls and presentation.
- Roles, tenancy, serializers, viewsets, audit log entries and redaction: thin guards taken as given.
- Behaviour, counselling, guidance, activities and portal: short transition tables and plain storage.
- WorkbookValidation.Validate: the warnings are not returned; the normalisations they report are modelled.  Errors are a set, so their order and repetition are not modelled.
- WorkbookSheet.LoadEvaluationSheet: the class and student sheets, whose rows are plain copies of cells, and the refusals of a workbook without them are not modelled.
- WorkbookSheet.SplitHeader: upper case is modelled for ASCII letters, so headers whose exotic letters turn into ASCII ones are not covered.
- WorkbookSheet.DerivedLocalCode: running numbers are read in ASCII, Persian and Arabic digits; the code also reads other decimal digits and stops with an error on characters like a superscript two.
- WorkbookValues.TakeUpTo: models the slice of a string with a negative bound, as the code uses it for long local codes.
- Field validators of the stored models (code formats, lengths, dates within the year) may refuse an import further; the model includes the unique constraints and the check for another school.
- WorkbookImport.Importer.ApplyWorkbook: the refusal for an unknown academic year is part of the validator's result and excluded by what the importer requires.
- Soft-deleted evaluations and workbooks are outside the tables; deleted classes, students and enrollments are inside and are restored by an import.
- Grades.Gradebook.CalculateEnrollmentTerm: the policy of an enrollment is a field of it; how the policy row is looked up is not modelled.
- Evaluations.SummarizeEvaluation: the order and display scores of the listed indicators, the strengths and improvements and the trend texts are not modelled; two versions of one month are taken in the given order.
- Attendance.AttendanceService.BulkRecord: who may record is not modelled, and neither is soft deletion of records, which no service performs.
- Conflicts.DataDirectoryScanner.RefreshConflicts: the text fields of a conflict and the scan of the files before it are not modelled; a student group is identified by class and national id instead of their concatenation.
- Legacy import paths and the administration pages, which bypass the service functions.
