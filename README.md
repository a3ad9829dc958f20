# Fingerprint attendance: enrollment handshake, attendance recorder, eligibility engine

This Dafny project models the core of a fingerprint attendance backend: the
`AttendanceService` class of `src/attendance/attendance.service.ts`.

- **Enrollment handshake.** A scanner reports an unknown fingerprint token, and
  the service find-or-creates an incomplete pending row for it
  (`createPendingStudentFromHardware`). The operator's form polls for the oldest
  pending token (`getNewUsers`). Submitting the form enrolls a student and
  retires the pending row (`addStudent`). The service stores the token in the
  pending row's `matric` column, and completion overwrites that column with the
  real matric number. The model does the same.
- **Attendance recorder** (`markAttendance`). Under the demo policy every mark
  creates a new period. Under the calendar-day policy a mark merges into the
  student's period for today, or creates one. The status line is either
  "Day K", "Sign-in #N" or "First sign-in".
- **Eligibility engine.** The denominator is 10 under the demo policy. Under the
  calendar-day policy it is the number of Monday–Friday days among the 30 days
  ending today (`calculateWorkingDays`). The service reports the rounded capped
  percentage and the 65% verdict, per student (`getStudentByFingerprintId`,
  `getEligibilityData`) and in aggregate (`getEligibleStudentsCount`,
  `getQuickStats`).

Layout:

- `entities.dfy` (module `Entities`): the row shapes of the three tables
  (`src/entities/*.entity.ts`) and the error outcomes.
- `tables.dfy` (module `Tables`): the `findOne`/`filter` queries, a student's
  `attendances` relation, and the invariants of each table.
- `eligibility.dfy` (module `Eligibility`): the working-day loop, the
  percentage arithmetic and `getOrdinalSuffix`.
- `service.dfy` (module `Service`): the class `AttendanceService`. Its three
  repositories become three `seq` fields, with one id counter each. `Valid()`
  holds the uniqueness and well-formedness invariants, and every operation
  preserves it.
- `scenarios.dfy` (module `Scenarios`): clients that use only the contracts.
  They replay the handshake end to end, three same-day marks and two demo marks.

The environment is passed in as parameters. `process.env.DEMO_MODE` becomes a
`demo` flag. `new Date()` becomes today's day number, today's weekday (numbered
as `getDay`) and the formatted time of day. Time strings are opaque.

The percentage is defined exactly over `real` as the reference:
`Math.min(100, (n / d) * 100)`, with `Math.round(x) = floor(x + 1/2)`. The
integer formula the model uses is proved equal to it. That formula is
`(200 n + d) div 2d` below the cap, 100 at the cap and 0 when `d = 0`. The
verdict `100 n >= 65 d` is proved equivalent to both the capped form (used at
line 318) and the uncapped form (used at line 469).

Three behaviours of the code shape the model:

- The poll orders pending rows by `id`. Creation time is never read.
- The scan and the same-day lookup are check-then-act: a lookup followed by a
  separate save. Only sequential runs are modelled.
- The same-day lookup uses TypeORM `Between`, which is inclusive at both ends.
  So a period dated the next day also matches (`Tables.FindRecordForDay`).

## Model

| member | source | states |
|---|---|---|
| Tables.FirstIndex | src/attendance/attendance.service.ts:126-128 | `findOne`: the first row in table order that satisfies the where clause; no row exactly when none satisfies it |
| Tables.FindPending | src/attendance/attendance.service.ts:126-128 | the incomplete row whose matric column holds the scanned token; none exactly when every row is complete or holds another token |
| Tables.FindStudentByMatric | src/attendance/attendance.service.ts:234-236 | a student enrolled under the matric number; none exactly when no student has it |
| Tables.FindStudentByFingerprint | src/attendance/attendance.service.ts:282-285 | a student enrolled under the fingerprint token; none exactly when no student has it |
| Tables.FindRecordForDay | src/attendance/attendance.service.ts:380-385 | the student's period dated today or the following day (`Between` includes the upper day); none exactly when the student has no period on either day |
| Tables.AttendanceCountIsOwnedRows | src/attendance/attendance.service.ts:103 | `attendances?.length` is the number of rows of the attendance table owned by the student |
| Tables.RecordsOf | src/attendance/attendance.service.ts:282-285 | a student's `attendances` relation holds exactly the periods whose `studentId` is theirs |
| Tables.Filter | src/attendance/attendance.service.ts:449-470 | `filter` keeps exactly the rows satisfying the predicate |
| Tables.FilterKeepsOnePerPosition | src/attendance/attendance.service.ts:449-470 | the filtered list's length is the number of positions whose row satisfies the predicate |
| Tables.AppendCountsOnce | src/attendance/attendance.service.ts:357-366 | saving a new period adds one to its owner's period count and nothing to any other student's |
| Tables.UpdateKeepsCount | src/attendance/attendance.service.ts:387-393 | saving a merged period (same owner) changes no student's period count |
| Tables.CompleteKeepsPendingValid | src/attendance/attendance.service.ts:262-267 | completing a pending row in place keeps the pending table valid |
| Tables.CompleteRetiresToken | src/attendance/attendance.service.ts:262-267 | once the only incomplete row for a token is completed, no row awaits that token |
| Tables.AppendKeepsStudentValid | src/attendance/attendance.service.ts:251-260 | enrolling a student with an unused matric and fingerprint under the next id keeps both columns unique |
| Tables.AppendStudentKeepsAttendanceValid | src/attendance/attendance.service.ts:251-260 | enrolling a student keeps every period owned by an enrolled student |
| Tables.AppendKeepsAttendanceValid | src/attendance/attendance.service.ts:408-417 | a new well-formed period of an existing student, under the next id, keeps the attendance table valid |
| Tables.UpdateKeepsAttendanceValid | src/attendance/attendance.service.ts:389-393 | rewriting a period with a well-formed one of the same id and owner keeps the table valid |
| Tables.UpdateKeepsOnePerDay | src/attendance/attendance.service.ts:389-393 | a merge keeps owner and date, so it keeps one period per (student, date) |
| Tables.AppendKeepsOnePerDay | src/attendance/attendance.service.ts:380-417 | creating a period dated today when the lookup found none keeps one period per (student, date) |
| Eligibility.WorkingDaysIn | src/attendance/attendance.service.ts:492-508 | the working-day count over `days` offsets is at most `days` |
| Eligibility.CalculateWorkingDays | src/attendance/attendance.service.ts:492-508 | the counting loop returns the number of offsets 0..days-1 before today whose weekday is Monday–Friday |
| Eligibility.NoStepBack | src/attendance/attendance.service.ts:497-501 | zero days back is today's weekday |
| Eligibility.StepBack | src/attendance/attendance.service.ts:497-501 | `setDate(getDate() - i)` then `getDay()`: each further day back moves the weekday one step back, Sunday wrapping to Saturday |
| Eligibility.WeekHasFiveWorkingDays | src/attendance/attendance.service.ts:496-505 | any 7 consecutive offsets contribute exactly 5 working days |
| Eligibility.WeeksHaveFiveWorkingDaysEach | src/attendance/attendance.service.ts:496-505 | q whole weeks of offsets contribute exactly 5q working days |
| Eligibility.PeriodHasTwentyToTwentyTwoWorkingDays | src/attendance/attendance.service.ts:101-102 | the 30-day window holds between 20 and 22 working days, so the `> 0` guard at line 104 never fails |
| Eligibility.PossibleDays | src/attendance/attendance.service.ts:92-107 | the denominator is 10 under the demo policy and 20 to 22 otherwise, so never zero |
| Eligibility.PercentageComparedToThreshold | src/attendance/attendance.service.ts:305-318 | for d > 0, the capped and the uncapped percentage are at least 65 exactly when 100 n >= 65 d |
| Eligibility.RoundedPercentage | src/attendance/attendance.service.ts:96-113 | the reported figure is between 0 and 100 and equals `Math.round(Math.min(100, (n/d)*100))`, or 0 when d = 0 |
| Eligibility.IsEligible | src/attendance/attendance.service.ts:456-469 | the integer verdict holds exactly when the capped percentage is at least 65, and exactly when the uncapped one is |
| Eligibility.RoundedAgreesWithVerdict | src/attendance/attendance.service.ts:316-318 | for the denominators the service produces (10, 20, 21, 22), the rounded figure is at least 65 exactly when the verdict is positive |
| Eligibility.RoundedCanDisagreeElsewhere | src/attendance/attendance.service.ts:316-318 | for other denominators they can differ: 129 of 200 is shown as 65 but is not eligible |
| Eligibility.JsRemainder | src/attendance/attendance.service.ts:484 | JavaScript `%`: the remainder differs from the dividend by a multiple of the divisor, has the dividend's sign (never positive for a negative dividend) and magnitude below the divisor |
| Eligibility.OrdinalSuffix | src/attendance/attendance.service.ts:480-490 | the suffix is one of st/nd/rd/th, and "th" for 11 to 13 |
| Eligibility.OrdinalSuffixOfDayOfMonth | src/attendance/attendance.service.ts:480-490 | for days 1..31 the suffix is the English ordinal one (1st, 2nd, 3rd, 11th–13th, 21st, 22nd, 23rd, 31st, otherwise th) |
| Eligibility.OrdinalSuffixOfNegative | src/attendance/attendance.service.ts:484-488 | with a truncating `%`, a negative argument always gets "th" |
| Service.FreshRecord | src/attendance/attendance.service.ts:408-415 | a new period holds one sign-in at `now`, which is both first and last, and is well formed |
| Service.MergeSignIn | src/attendance/attendance.service.ts:389-391 | a merge appends `now` at the end of the log, adds one to the count, sets the last sign-in, keeps the first sign-in, id, owner and date, and keeps the period well formed |
| Service.Completed | src/attendance/attendance.service.ts:262-267 | a completed pending row is marked complete and carries the final name, matric and image under the same id |
| Service.EligibilityOf | src/attendance/attendance.service.ts:109-114 | one eligibility row: the percentage is within 0..100 and is the rounded capped percentage of the student's period count |
| Service.EligibleIn | src/attendance/attendance.service.ts:449-469 | the filter keeps a student exactly when their uncapped percentage is at least 65 |
| Service.TotalPossibleDays | src/attendance/attendance.service.ts:92-107 | the denominator is 10 under the demo policy, otherwise `calculateWorkingDays(30)`; it is 10 or 20..22 |
| Service.AttendanceService.constructor | src/attendance/attendance.service.ts:10-17 | empty tables, every id counter at 1, invariants established |
| Service.AttendanceService.CreatePendingStudentFromHardware | src/attendance/attendance.service.ts:121-160 | echoes the token; adds nothing if an incomplete row holds it, otherwise appends exactly one incomplete row holding it; afterwards such a row exists, and at most one per token is kept |
| Service.AttendanceService.GetNewUsers | src/attendance/attendance.service.ts:175-207 | changes nothing; returns the token of the incomplete row with the least id, or "" when every row is complete |
| Service.AttendanceService.AddStudent | src/attendance/attendance.service.ts:223-278 | NotFound without an incomplete row for the token, then Conflict(Matric), then Conflict(FingerprintId), with no table changed; success exactly otherwise, appending the student and completing only the matched row, so the token is no longer pending; matric and fingerprint stay unique |
| Service.AttendanceService.GetStudentByFingerprintId | src/attendance/attendance.service.ts:281-328 | NotFound exactly for an unknown fingerprint; otherwise the student's fields and periods, the rounded capped percentage (0..100), and `isEligible` exactly when the capped percentage is at least 65 |
| Service.AttendanceService.MarkAttendance | src/attendance/attendance.service.ts:330-432 | NotFound and nothing recorded for an unknown fingerprint; demo: one new period (count 1, log [now]), "Day K" with K the new period count; calendar-day: merge into the found period (log grows by now, count + 1, first sign-in kept, "Sign-in #" new count, no period added) or create one dated today ("First sign-in"); the calendar-day policy keeps one period per (student, date) |
| Service.AttendanceService.SaveNewPeriod | src/attendance/attendance.service.ts:408-417 | appends a fresh period dated `day` under the next id, changes no other table, keeps the invariants |
| Service.AttendanceService.SaveMergedSignIn | src/attendance/attendance.service.ts:387-393 | rewrites one period in place with the merged sign-in, keeps every count and the invariants |
| Service.AttendanceService.GetEligibilityData | src/attendance/attendance.service.ts:74-118 | changes nothing; one row per student in table order, with name, matric, image and the rounded capped percentage (0..100) |
| Service.AttendanceService.GetEligibleStudentsCount | src/attendance/attendance.service.ts:434-471 | changes nothing; the number of students whose uncapped percentage is at least 65, at most the number of students |
| Service.AttendanceService.GetQuickStats | src/attendance/attendance.service.ts:19-29 | the number of students, the number of periods and the eligible count, which is at most the number of students |
| Scenarios.FirstScan | src/attendance/attendance.service.ts:121-160 | a first scan on an empty service opens the single pending row for the token |
| Scenarios.PollAfterScan | src/attendance/attendance.service.ts:175-207 | with that row pending, the poll returns its token |
| Scenarios.ScanTwiceThenPoll | src/attendance/attendance.service.ts:121-207 | two scans of one finger leave one pending row, and the poll returns its token |

## Left out

- HTTP routing, multer upload handling, logging, DI and database wiring, and the
  DTO files. `src/attendance/attendance.controller.ts` is not part of this
  model.
- `getGraphData` and `getAttendanceByDate`. They are SQL query-builder calls
  whose date arithmetic runs inside the database.
- `formatDate` and `toLocaleTimeString`. Locale formatting is not modelled:
  time strings are opaque values, and status lines are a `Message` datatype
  that carries the numbers the templates print.
- Every `console.log`, storage failures, and the `catch` in `getNewUsers` that
  turns a storage error into `""`.
- Concurrency. Two scans of one token, or two same-day marks, racing
  between lookup and save are not modelled; only sequential runs are.
- Floating point. The percentage is computed exactly. The double-precision
  rounding of `(n / d) * 100` is not modelled.
- `PendingStudent.createdAt` is omitted. The core never reads it (the poll
  orders by id).
- The entity's `fingerprintId` column (`src/entities/pending-student.entity.ts:14-15`)
  is omitted. The service never sets it, and whether the store accepts a row
  without it depends on the schema, which is not modelled.
- The attendance date is a day number. In demo mode the service passes the
  full timestamp, and the `date` column keeps only its date. So both policies
  store today's day number. The demo response's echo of the full timestamp is
  not modelled.
- `findOne` without an order is taken to return the first matching row in
  table (id) order.
- The `|| []` fallback for a missing `allSignIns` log is not modelled. The
  invariant `WellFormedRecord` guarantees every stored period has a non-empty
  log.
- Service.AttendanceService.MarkAttendance: the returned attendance is the
  whole saved row, not only the summary fields the service copies into its
  response.
