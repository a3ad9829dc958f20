/**
 * `AttendanceService`: the enrollment handshake (scan, poll, complete), the
 * attendance recorder and the eligibility reports, over three in-memory
 * tables that stand for the service's repositories. Ids are issued from one
 * counter per table, as the tables' serial primary keys are.
 *
 * What the service reads from its environment is passed in: the demo flag
 * (`DEMO_MODE`), today's date as a day number, today's weekday, and the
 * current time of day as the formatted string the service stores.
 */
module Service {
  import opened Entities
  import opened Tables
  import opened Eligibility

  /** The status line of `markAttendance`. */
  datatype Message =
    | DayMarked(day: nat, at: Time)          // "Day <day> attendance marked at <at>"
    | SignInUpdated(count: nat, at: Time)    // "Attendance updated! Sign-in #<count> at <at>"
    | FirstSignIn(at: Time)                  // "Attendance marked! First sign-in at <at>"

  datatype Marked = Marked(message: Message, attendance: Attendance)

  datatype StudentReport = StudentReport(
    id: nat,
    name: string,
    matric: string,
    fingerprintId: string,
    image: Option<string>,
    percentageAttendance: nat,
    totalAttendances: nat,
    isEligible: bool,
    attendances: seq<Attendance>)

  datatype EligibilityRecord = EligibilityRecord(
    name: string,
    matric: string,
    image: Option<string>,
    percentageAttendance: nat)

  datatype QuickStats = QuickStats(
    numberOfStudents: nat,
    numberOfAttendance: nat,
    numberOfEligibleStudents: nat)

  /** A period's first sign-in: one sign-in at `now`, dated `day`. */
  function FreshRecord(id: nat, studentId: nat, day: Day, now: Time): (a: Attendance)
    ensures a.id == id && a.studentId == studentId && a.attendanceDate == day
    ensures WellFormedRecord(a) && a.signInCount == 1 && a.allSignIns == [now]
    ensures a.firstSignIn == now && a.lastSignIn == now
  {
    Attendance(id, studentId, day, now, now, 1, [now])
  }

  /**
   * A later sign-in merged into period `a`: the log grows by `now` at its end,
   * the count by one, the first sign-in stays; well-formedness is kept.
   */
  function MergeSignIn(a: Attendance, now: Time): (b: Attendance)
    ensures WellFormedRecord(a) ==> WellFormedRecord(b)
    ensures |b.allSignIns| == |a.allSignIns| + 1
    ensures b.allSignIns[..|a.allSignIns|] == a.allSignIns && b.allSignIns[|a.allSignIns|] == now
    ensures b.signInCount == a.signInCount + 1 && b.firstSignIn == a.firstSignIn && b.lastSignIn == now
    ensures b.id == a.id && b.studentId == a.studentId && b.attendanceDate == a.attendanceDate
  {
    a.(lastSignIn := now, signInCount := a.signInCount + 1, allSignIns := a.allSignIns + [now])
  }

  /** A pending row after completion: complete, carrying the final name, matric and image. */
  function Completed(row: PendingStudent, name: string, matric: string, image: Option<string>): (r: PendingStudent)
    ensures r.isCompleted && r.id == row.id
    ensures r.name == Some(name) && r.matric == matric && r.image == image
  {
    row.(isCompleted := true, name := Some(name), matric := matric, image := image)
  }

  /** The eligibility row of one student. */
  function EligibilityOf(s: Student, atts: seq<Attendance>, d: nat): (e: EligibilityRecord)
    ensures e.percentageAttendance <= 100
    ensures e.percentageAttendance == Round(CappedPercentage(AttendanceCount(atts, s.id), d))
  {
    EligibilityRecord(s.name, s.matric, s.image, RoundedPercentage(AttendanceCount(atts, s.id), d))
  }

  /** The verdict on one student, as the filter of `getEligibleStudentsCount` applies it. */
  function EligibleIn(atts: seq<Attendance>, d: nat): (eligible: Student -> bool)
    ensures forall s :: eligible(s) <==> UncappedPercentage(AttendanceCount(atts, s.id), d) >= Threshold as real
  {
    (s: Student) => IsEligible(AttendanceCount(atts, s.id), d)
  }

  /** The positions of the students whose verdict is positive. */
  ghost function EligibleIndices(students: seq<Student>, atts: seq<Attendance>, d: nat): set<nat> {
    Positions(students, EligibleIn(atts, d))
  }

  /** `calculateWorkingDays(30)` under the calendar-day policy, 10 under the demo policy. */
  method TotalPossibleDays(demo: bool, today: Weekday) returns (d: nat)
    ensures d == PossibleDays(demo, today)
    ensures d == 10 || 20 <= d <= 22
  {
    if demo {
      d := DemoPossibleDays;
    } else {
      d := CalculateWorkingDays(AttendancePeriod, today);
    }
  }

  class AttendanceService {
    var pending: seq<PendingStudent>
    var students: seq<Student>
    var attendances: seq<Attendance>
    var nextPendingId: nat
    var nextStudentId: nat
    var nextAttendanceId: nat

    ghost predicate Valid()
      reads this
    {
      && PendingTableValid(pending, nextPendingId)
      && StudentTableValid(students, nextStudentId)
      && AttendanceTableValid(attendances, students, nextAttendanceId)
    }

    /** Empty tables; serial ids start at 1. */
    constructor ()
      ensures Valid()
      ensures pending == [] && students == [] && attendances == []
      ensures nextPendingId == 1 && nextStudentId == 1 && nextAttendanceId == 1
    {
      pending, students, attendances := [], [], [];
      nextPendingId, nextStudentId, nextAttendanceId := 1, 1, 1;
    }

    /**
     * `createPendingStudentFromHardware`: find-or-create the incomplete pending
     * row for a scanned token. A repeated scan adds nothing; either way exactly
     * one incomplete row holds the token afterwards. The token is echoed back.
     */
    method CreatePendingStudentFromHardware(fingerprintId: string) returns (id: string)
      requires Valid()
      modifies this
      ensures Valid()
      ensures id == fingerprintId
      ensures students == old(students) && attendances == old(attendances)
      ensures nextStudentId == old(nextStudentId) && nextAttendanceId == old(nextAttendanceId)
      ensures old(FindPending(pending, fingerprintId)).Some? ==>
                pending == old(pending) && nextPendingId == old(nextPendingId)
      ensures old(FindPending(pending, fingerprintId)).None? ==>
                && pending == old(pending) + [PendingStudent(old(nextPendingId), None, fingerprintId, None, false)]
                && nextPendingId == old(nextPendingId) + 1
      ensures FindPending(pending, fingerprintId).Some?
    {
      id := fingerprintId;
      var existing := FindPending(pending, fingerprintId);
      if existing.Some? {
        return;
      }
      var row := PendingStudent(nextPendingId, None, fingerprintId, None, false);
      pending := pending + [row];
      nextPendingId := nextPendingId + 1;
      assert AwaitsCompletion(pending[|pending| - 1], fingerprintId);
    }

    /**
     * `getNewUsers`: the token of the incomplete pending row with the least id,
     * or "" when every row is complete. Changes nothing.
     */
    method GetNewUsers() returns (id: string)
      requires Valid()
      ensures FirstIndex(pending, Incomplete).None? ==> id == ""
      ensures FirstIndex(pending, Incomplete).Some? ==>
                var k := FirstIndex(pending, Incomplete).value;
                && id == pending[k].matric
                && forall i :: 0 <= i < |pending| && Incomplete(pending[i]) ==> pending[k].id <= pending[i].id
    {
      var first := FirstIndex(pending, Incomplete);
      if first.Some? {
        var k := first.value;
        id := pending[k].matric;
        forall i | 0 <= i < |pending| && Incomplete(pending[i])
          ensures k <= i && pending[k].id <= pending[i].id
        {
          assert !(i < k);
        }
      } else {
        id := "";
      }
    }

    /**
     * `addStudent`: complete the pending row for `fingerprintId`. Fails with
     * NotFound when no incomplete row holds the token, then with a matric
     * conflict, then with a fingerprint conflict, changing nothing. Otherwise
     * adds the student and completes that row, leaving every other row alone,
     * so the token is no longer pending.
     */
    method AddStudent(fingerprintId: string, name: string, matric: string, imagePath: Option<string>)
      returns (r: Result<Student>)
      requires Valid()
      modifies this
      ensures Valid()
      ensures attendances == old(attendances) && nextAttendanceId == old(nextAttendanceId)
      ensures old(FindPending(pending, fingerprintId)).None? ==> r == Err(NotFound)
      ensures old(FindPending(pending, fingerprintId)).Some? && old(FindStudentByMatric(students, matric)).Some? ==>
                r == Err(Conflict(Matric))
      ensures && old(FindPending(pending, fingerprintId)).Some?
              && old(FindStudentByMatric(students, matric)).None?
              && old(FindStudentByFingerprint(students, fingerprintId)).Some? ==>
                r == Err(Conflict(FingerprintId))
      ensures r.Ok? <==>
                && old(FindPending(pending, fingerprintId)).Some?
                && old(FindStudentByMatric(students, matric)).None?
                && old(FindStudentByFingerprint(students, fingerprintId)).None?
      ensures r.Err? ==>
                && pending == old(pending) && students == old(students)
                && nextPendingId == old(nextPendingId) && nextStudentId == old(nextStudentId)
      ensures r.Ok? ==>
                var k := old(FindPending(pending, fingerprintId)).value;
                && r.value == Student(old(nextStudentId), name, matric, fingerprintId, imagePath)
                && students == old(students) + [r.value]
                && nextStudentId == old(nextStudentId) + 1
                && pending == old(pending)[k := Completed(old(pending)[k], name, matric, imagePath)]
                && nextPendingId == old(nextPendingId)
      ensures r.Ok? ==> FindPending(pending, fingerprintId).None?
    {
      var found := FindPending(pending, fingerprintId);
      if found.None? {
        return Err(NotFound);
      }
      if FindStudentByMatric(students, matric).Some? {
        return Err(Conflict(Matric));
      }
      if FindStudentByFingerprint(students, fingerprintId).Some? {
        return Err(Conflict(FingerprintId));
      }
      var k := found.value;
      var student := Student(nextStudentId, name, matric, fingerprintId, imagePath);
      var done := Completed(pending[k], name, matric, imagePath);
      AppendKeepsStudentValid(students, nextStudentId, student);
      AppendStudentKeepsAttendanceValid(attendances, students, nextAttendanceId, student);
      CompleteKeepsPendingValid(pending, nextPendingId, k, done);
      CompleteRetiresToken(pending, nextPendingId, k, fingerprintId, done);
      students := students + [student];
      nextStudentId := nextStudentId + 1;
      pending := pending[k := done];
      r := Ok(student);
    }

    /**
     * `getStudentByFingerprintId`: the student's record with their periods, the
     * rounded capped percentage and the verdict. Changes nothing.
     */
    method GetStudentByFingerprintId(fingerprintId: string, demo: bool, today: Weekday)
      returns (r: Result<StudentReport>)
      requires Valid()
      ensures FindStudentByFingerprint(students, fingerprintId).None? <==> r == Err(NotFound)
      ensures r.Err? ==> r == Err(NotFound)
      ensures r.Ok? ==>
                var s := students[FindStudentByFingerprint(students, fingerprintId).value];
                var recs := RecordsOf(attendances, s.id);
                && s.fingerprintId == fingerprintId
                && r.value.id == s.id && r.value.name == s.name && r.value.matric == s.matric
                && r.value.fingerprintId == s.fingerprintId && r.value.image == s.image
                && r.value.attendances == recs && r.value.totalAttendances == |recs|
      ensures r.Ok? ==>
                var d := PossibleDays(demo, today);
                && r.value.percentageAttendance <= 100
                && r.value.percentageAttendance == Round(CappedPercentage(r.value.totalAttendances, d))
                && (r.value.isEligible <==> CappedPercentage(r.value.totalAttendances, d) >= Threshold as real)
    {
      var found := FindStudentByFingerprint(students, fingerprintId);
      if found.None? {
        return Err(NotFound);
      }
      var s := students[found.value];
      var recs := RecordsOf(attendances, s.id);
      var d := TotalPossibleDays(demo, today);
      r := Ok(StudentReport(s.id, s.name, s.matric, s.fingerprintId, s.image,
                            RoundedPercentage(|recs|, d), |recs|, IsEligible(|recs|, d), recs));
    }

    /**
     * `markAttendance` for the student holding `fingerprintId`, at time `now`
     * on day `today`. Unknown fingerprint: NotFound, nothing recorded. Demo
     * policy: always a new period, reported as "Day K" with K the student's new
     * period count. Calendar-day policy: merge into the student's period found
     * for today (reported "Sign-in #N" with the new count), or create one dated
     * today (reported "First sign-in"); this policy never adds a second period
     * for the same (student, date).
     */
    method MarkAttendance(fingerprintId: string, demo: bool, today: Day, now: Time) returns (r: Result<Marked>)
      requires Valid()
      modifies this
      ensures Valid()
      ensures pending == old(pending) && students == old(students)
      ensures nextPendingId == old(nextPendingId) && nextStudentId == old(nextStudentId)
      ensures old(FindStudentByFingerprint(students, fingerprintId)).None? <==> r.Err?
      ensures r.Err? ==>
                r == Err(NotFound) && attendances == old(attendances) && nextAttendanceId == old(nextAttendanceId)
      ensures r.Ok? && demo ==>
                var sid := students[FindStudentByFingerprint(students, fingerprintId).value].id;
                var rec := FreshRecord(old(nextAttendanceId), sid, today, now);
                && attendances == old(attendances) + [rec]
                && nextAttendanceId == old(nextAttendanceId) + 1
                && AttendanceCount(attendances, sid) == AttendanceCount(old(attendances), sid) + 1
                && r.value == Marked(DayMarked(AttendanceCount(attendances, sid), now), rec)
      ensures r.Ok? && !demo ==>
                var sid := students[FindStudentByFingerprint(students, fingerprintId).value].id;
                var found := old(FindRecordForDay(attendances, sid, today));
                && (found.Some? ==>
                      var merged := MergeSignIn(old(attendances)[found.value], now);
                      && attendances == old(attendances)[found.value := merged]
                      && nextAttendanceId == old(nextAttendanceId)
                      && AttendanceCount(attendances, sid) == AttendanceCount(old(attendances), sid)
                      && r.value == Marked(SignInUpdated(merged.signInCount, now), merged))
                && (found.None? ==>
                      var rec := FreshRecord(old(nextAttendanceId), sid, today, now);
                      && attendances == old(attendances) + [rec]
                      && nextAttendanceId == old(nextAttendanceId) + 1
                      && AttendanceCount(attendances, sid) == AttendanceCount(old(attendances), sid) + 1
                      && r.value == Marked(FirstSignIn(now), rec))
      ensures !demo && OnePerDay(old(attendances)) ==> OnePerDay(attendances)
    {
      var found := FindStudentByFingerprint(students, fingerprintId);
      if found.None? {
        return Err(NotFound);
      }
      var student := students[found.value];
      assert IsStudentId(students, student.id);
      ghost var before := attendances;
      if demo {
        var rec := SaveNewPeriod(student.id, today, now);
        AppendCountsOnce(before, rec, student.id);
        r := Ok(Marked(DayMarked(AttendanceCount(attendances, student.id), now), rec));
      } else {
        var existing := FindRecordForDay(attendances, student.id, today);
        if existing.Some? {
          var merged := SaveMergedSignIn(existing.value, now);
          r := Ok(Marked(SignInUpdated(merged.signInCount, now), merged));
        } else {
          var rec := SaveNewPeriod(student.id, today, now);
          AppendCountsOnce(before, rec, student.id);
          if OnePerDay(before) {
            AppendKeepsOnePerDay(before, rec, today);
          }
          r := Ok(Marked(FirstSignIn(now), rec));
        }
      }
    }

    /** Saves a new period of student `sid` dated `day` with its first sign-in at `now`. */
    method SaveNewPeriod(sid: nat, day: Day, now: Time) returns (rec: Attendance)
      requires Valid() && IsStudentId(students, sid)
      modifies this
      ensures Valid()
      ensures pending == old(pending) && students == old(students)
      ensures nextPendingId == old(nextPendingId) && nextStudentId == old(nextStudentId)
      ensures rec == FreshRecord(old(nextAttendanceId), sid, day, now)
      ensures attendances == old(attendances) + [rec] && nextAttendanceId == old(nextAttendanceId) + 1
    {
      rec := FreshRecord(nextAttendanceId, sid, day, now);
      AppendKeepsAttendanceValid(attendances, students, nextAttendanceId, rec);
      attendances := attendances + [rec];
      nextAttendanceId := nextAttendanceId + 1;
    }

    /** Saves period `k` with one more sign-in at `now`. */
    method SaveMergedSignIn(k: nat, now: Time) returns (merged: Attendance)
      requires Valid() && k < |attendances|
      modifies this
      ensures Valid()
      ensures pending == old(pending) && students == old(students)
      ensures nextPendingId == old(nextPendingId) && nextStudentId == old(nextStudentId)
      ensures nextAttendanceId == old(nextAttendanceId)
      ensures merged == MergeSignIn(old(attendances)[k], now)
      ensures attendances == old(attendances)[k := merged]
      ensures AttendanceCount(attendances, merged.studentId) == AttendanceCount(old(attendances), merged.studentId)
      ensures OnePerDay(old(attendances)) ==> OnePerDay(attendances)
    {
      merged := MergeSignIn(attendances[k], now);
      UpdateKeepsAttendanceValid(attendances, students, nextAttendanceId, k, merged);
      UpdateKeepsCount(attendances, k, merged, merged.studentId);
      if OnePerDay(attendances) {
        UpdateKeepsOnePerDay(attendances, k, merged);
      }
      attendances := attendances[k := merged];
    }

    /**
     * `getEligibilityData`: one row per student, in table order, with the
     * rounded capped percentage. Changes nothing.
     */
    method GetEligibilityData(demo: bool, today: Weekday) returns (eligibility: seq<EligibilityRecord>)
      requires Valid()
      ensures |eligibility| == |students|
      ensures forall i :: 0 <= i < |students| ==>
                && eligibility[i].name == students[i].name
                && eligibility[i].matric == students[i].matric
                && eligibility[i].image == students[i].image
                && eligibility[i].percentageAttendance <= 100
                && eligibility[i].percentageAttendance
                   == Round(CappedPercentage(AttendanceCount(attendances, students[i].id), PossibleDays(demo, today)))
    {
      var d := TotalPossibleDays(demo, today);
      eligibility := seq(|students|, i requires 0 <= i < |students| reads this => EligibilityOf(students[i], attendances, d));
    }

    /**
     * `getEligibleStudentsCount`: how many students have an uncapped
     * percentage of at least 65. Changes nothing.
     */
    method GetEligibleStudentsCount(demo: bool, today: Weekday) returns (count: nat)
      requires Valid()
      ensures count <= |students|
      ensures count == |EligibleIndices(students, attendances, PossibleDays(demo, today))|
      ensures forall i :: 0 <= i < |students| ==>
                (i in EligibleIndices(students, attendances, PossibleDays(demo, today))
                 <==> UncappedPercentage(AttendanceCount(attendances, students[i].id), PossibleDays(demo, today))
                      >= Threshold as real)
    {
      var d := TotalPossibleDays(demo, today);
      count := |Filter(students, EligibleIn(attendances, d))|;
      FilterKeepsOnePerPosition(students, EligibleIn(attendances, d));
    }

    /** `getQuickStats`: table sizes and the eligible count. Changes nothing. */
    method GetQuickStats(demo: bool, today: Weekday) returns (stats: QuickStats)
      requires Valid()
      ensures stats.numberOfStudents == |students|
      ensures stats.numberOfAttendance == |attendances|
      ensures stats.numberOfEligibleStudents == |EligibleIndices(students, attendances, PossibleDays(demo, today))|
      ensures stats.numberOfEligibleStudents <= stats.numberOfStudents
    {
      var eligible := GetEligibleStudentsCount(demo, today);
      stats := QuickStats(|students|, |attendances|, eligible);
    }
  }
}
