/**
 * The queries the service issues against its three tables (`findOne` with a
 * `where` clause, the `attendances` relation of a student) and the
 * invariants the tables keep.
 */
module Tables {
  import opened Entities

  /**
   * The first row satisfying `p`, as `findOne` returns it when rows are taken
   * in insertion order; `None` when no row does.
   */
  function FirstIndex<T>(rows: seq<T>, p: T -> bool): (r: Option<nat>)
    ensures r.None? <==> forall i :: 0 <= i < |rows| ==> !p(rows[i])
    ensures r.Some? ==> r.value < |rows| && p(rows[r.value])
    ensures r.Some? ==> forall i :: 0 <= i < r.value ==> !p(rows[i])
  {
    if |rows| == 0 then None
    else if p(rows[0]) then Some(0)
    else
      match FirstIndex(rows[1..], p)
      case None => None
      case Some(k) => Some(k + 1)
  }

  /** `rows.filter(p)`. */
  function Filter<T(!new)>(rows: seq<T>, p: T -> bool): (r: seq<T>)
    ensures |r| <= |rows|
    ensures forall x :: x in r <==> x in rows && p(x)
  {
    if |rows| == 0 then []
    else
      var last := rows[|rows| - 1];
      Filter(rows[..|rows| - 1], p) + (if p(last) then [last] else [])
  }

  /** The positions of the rows satisfying `p`. */
  ghost function Positions<T>(rows: seq<T>, p: T -> bool): set<nat> {
    set i: nat | i < |rows| && p(rows[i])
  }

  /** Extending the rows by one adds its position exactly when that row satisfies `p`. */
  lemma PositionsOfSnoc<T>(rows: seq<T>, p: T -> bool)
    requires |rows| > 0
    ensures var n := |rows| - 1;
      && Positions(rows, p) == Positions(rows[..n], p) + (if p(rows[n]) then {n} else {})
      && n !in Positions(rows[..n], p)
  {
    var n := |rows| - 1;
    var init := rows[..n];
    var added: set<nat> := if p(rows[n]) then {n} else {};
    forall i | i in Positions(rows, p)
      ensures i in Positions(init, p) + added
    {
      if i < n {
        assert rows[i] == init[i];
      }
    }
    forall i | i in Positions(init, p) + added
      ensures i in Positions(rows, p)
    {
      if i < n {
        assert rows[i] == init[i];
      }
    }
  }

  /** The filter keeps exactly one entry per position that satisfies `p`. */
  lemma {:induction false} FilterKeepsOnePerPosition<T(!new)>(rows: seq<T>, p: T -> bool)
    ensures |Filter(rows, p)| == |Positions(rows, p)|
  {
    if |rows| > 0 {
      var n := |rows| - 1;
      FilterKeepsOnePerPosition(rows[..n], p);
      PositionsOfSnoc(rows, p);
    }
  }

  /** `isCompleted: false`. */
  predicate Incomplete(row: PendingStudent) {
    !row.isCompleted
  }

  /** `where: { matric: token, isCompleted: false }`: the token sits in the matric column. */
  predicate AwaitsCompletion(row: PendingStudent, token: string) {
    !row.isCompleted && row.matric == token
  }

  /** The incomplete pending row for a fingerprint token. */
  function FindPending(rows: seq<PendingStudent>, token: string): (r: Option<nat>)
    ensures r.None? <==> forall i :: 0 <= i < |rows| ==> rows[i].isCompleted || rows[i].matric != token
    ensures r.Some? ==> r.value < |rows| && !rows[r.value].isCompleted && rows[r.value].matric == token
  {
    FirstIndex(rows, row => AwaitsCompletion(row, token))
  }

  /** The student enrolled under a matric number. */
  function FindStudentByMatric(students: seq<Student>, matric: string): (r: Option<nat>)
    ensures r.None? <==> forall i :: 0 <= i < |students| ==> students[i].matric != matric
    ensures r.Some? ==> r.value < |students| && students[r.value].matric == matric
  {
    FirstIndex(students, (s: Student) => s.matric == matric)
  }

  /** The student enrolled under a fingerprint token. */
  function FindStudentByFingerprint(students: seq<Student>, fingerprintId: string): (r: Option<nat>)
    ensures r.None? <==> forall i :: 0 <= i < |students| ==> students[i].fingerprintId != fingerprintId
    ensures r.Some? ==> r.value < |students| && students[r.value].fingerprintId == fingerprintId
  {
    FirstIndex(students, (s: Student) => s.fingerprintId == fingerprintId)
  }

  /**
   * `attendanceDate: Between(today, today + 24h)`. TypeORM's `Between` is
   * inclusive at both ends, so a period dated the following day matches too.
   */
  predicate DatedBetween(a: Attendance, studentId: nat, today: Day) {
    a.studentId == studentId && today <= a.attendanceDate <= today + 1
  }

  /**
   * The calendar-day lookup: the first period of the student dated today or
   * the following day; none exactly when the student has no period on
   * either of those two days.
   */
  function FindRecordForDay(atts: seq<Attendance>, studentId: nat, today: Day): (r: Option<nat>)
    ensures r.None? <==> forall i :: 0 <= i < |atts| ==>
      atts[i].studentId != studentId || (atts[i].attendanceDate != today && atts[i].attendanceDate != today + 1)
    ensures r.Some? ==>
      && r.value < |atts|
      && atts[r.value].studentId == studentId
      && (atts[r.value].attendanceDate == today || atts[r.value].attendanceDate == today + 1)
  {
    FirstIndex(atts, a => DatedBetween(a, studentId, today))
  }

  /** Whether a period belongs to the student. */
  function OwnedBy(studentId: nat): Attendance -> bool {
    (a: Attendance) => a.studentId == studentId
  }

  /** A student's `attendances` relation: their periods, in table order. */
  function RecordsOf(atts: seq<Attendance>, studentId: nat): (r: seq<Attendance>)
    ensures |r| <= |atts|
    ensures forall a :: a in r <==> a in atts && a.studentId == studentId
  {
    Filter(atts, OwnedBy(studentId))
  }

  /** `attendances?.length || 0`. */
  function AttendanceCount(atts: seq<Attendance>, studentId: nat): nat {
    |RecordsOf(atts, studentId)|
  }

  /** A student's period count is the number of rows of the table they own. */
  lemma AttendanceCountIsOwnedRows(atts: seq<Attendance>, studentId: nat)
    ensures AttendanceCount(atts, studentId) == |Positions(atts, OwnedBy(studentId))|
  {
    FilterKeepsOnePerPosition(atts, OwnedBy(studentId));
  }

  /** Appending a period adds one to its owner's count and nothing to anybody else's. */
  lemma {:induction false} AppendCountsOnce(atts: seq<Attendance>, rec: Attendance, studentId: nat)
    ensures AttendanceCount(atts + [rec], studentId)
      == AttendanceCount(atts, studentId) + (if rec.studentId == studentId then 1 else 0)
  {
    assert (atts + [rec])[..|atts|] == atts;
  }

  /** Rewriting a period in place keeps every student's count when its owner is kept. */
  lemma {:induction false} UpdateKeepsCount(atts: seq<Attendance>, k: nat, rec: Attendance, studentId: nat)
    requires k < |atts| && rec.studentId == atts[k].studentId
    ensures AttendanceCount(atts[k := rec], studentId) == AttendanceCount(atts, studentId)
  {
    var n := |atts| - 1;
    if k < n {
      assert atts[k := rec][..n] == atts[..n][k := rec];
      UpdateKeepsCount(atts[..n], k, rec, studentId);
    } else {
      assert atts[k := rec][..n] == atts[..n];
    }
  }

  /** A period's sign-ins: as many as counted, first and last matching the log. */
  predicate WellFormedRecord(a: Attendance) {
    && |a.allSignIns| == a.signInCount
    && a.signInCount >= 1
    && a.firstSignIn == a.allSignIns[0]
    && a.lastSignIn == a.allSignIns[|a.allSignIns| - 1]
  }

  /**
   * Pending rows: ids issued in increasing order below the next id, at most one
   * incomplete row per token, and incomplete rows carry no name or image yet.
   */
  ghost predicate PendingTableValid(rows: seq<PendingStudent>, nextId: nat) {
    && (forall i :: 0 <= i < |rows| ==> rows[i].id < nextId)
    && (forall i, j :: 0 <= i < j < |rows| ==> rows[i].id < rows[j].id)
    && (forall i, j ::
          0 <= i < |rows| && 0 <= j < |rows| && Incomplete(rows[i]) && Incomplete(rows[j]) && rows[i].matric == rows[j].matric
          ==> i == j)
    && (forall i :: 0 <= i < |rows| && Incomplete(rows[i]) ==> rows[i].name.None? && rows[i].image.None?)
  }

  /** Students: ids increasing below the next id; matric and fingerprintId each unique. */
  ghost predicate StudentTableValid(students: seq<Student>, nextId: nat) {
    && (forall i :: 0 <= i < |students| ==> students[i].id < nextId)
    && (forall i, j :: 0 <= i < j < |students| ==> students[i].id < students[j].id)
    && (forall i, j :: 0 <= i < j < |students| ==> students[i].matric != students[j].matric)
    && (forall i, j :: 0 <= i < j < |students| ==> students[i].fingerprintId != students[j].fingerprintId)
  }

  ghost predicate IsStudentId(students: seq<Student>, id: nat) {
    exists j :: 0 <= j < |students| && students[j].id == id
  }

  /** Attendance periods: ids increasing below the next id, owned by a student, well formed. */
  ghost predicate AttendanceTableValid(atts: seq<Attendance>, students: seq<Student>, nextId: nat) {
    && (forall i :: 0 <= i < |atts| ==> atts[i].id < nextId)
    && (forall i, j :: 0 <= i < j < |atts| ==> atts[i].id < atts[j].id)
    && (forall i :: 0 <= i < |atts| ==> IsStudentId(students, atts[i].studentId))
    && (forall i :: 0 <= i < |atts| ==> WellFormedRecord(atts[i]))
  }

  /** The calendar-day policy's invariant: one period per (student, date). */
  ghost predicate OnePerDay(atts: seq<Attendance>) {
    forall i, j :: 0 <= i < j < |atts| && atts[i].studentId == atts[j].studentId
      ==> atts[i].attendanceDate != atts[j].attendanceDate
  }

  /** Completing a pending row in place keeps the pending table valid. */
  lemma CompleteKeepsPendingValid(rows: seq<PendingStudent>, nextId: nat, k: nat, done: PendingStudent)
    requires PendingTableValid(rows, nextId)
    requires k < |rows| && done.id == rows[k].id && done.isCompleted
    ensures PendingTableValid(rows[k := done], nextId)
  {
  }

  /** After the only incomplete row holding a token is completed, no row awaits that token. */
  lemma CompleteRetiresToken(rows: seq<PendingStudent>, nextId: nat, k: nat, token: string, done: PendingStudent)
    requires PendingTableValid(rows, nextId)
    requires k < |rows| && AwaitsCompletion(rows[k], token) && done.isCompleted
    ensures FindPending(rows[k := done], token).None?
  {
    var after := rows[k := done];
    forall i | 0 <= i < |after|
      ensures !AwaitsCompletion(after[i], token)
    {
      if i != k {
        assert after[i] == rows[i];
      }
    }
  }

  /** Enrolling a student with a fresh matric and fingerprint under the next id keeps the table valid. */
  lemma AppendKeepsStudentValid(students: seq<Student>, nextId: nat, s: Student)
    requires StudentTableValid(students, nextId) && s.id == nextId
    requires forall i :: 0 <= i < |students| ==> students[i].matric != s.matric
    requires forall i :: 0 <= i < |students| ==> students[i].fingerprintId != s.fingerprintId
    ensures StudentTableValid(students + [s], nextId + 1)
  {
  }

  /** Enrolling a student keeps every period owned by a student. */
  lemma AppendStudentKeepsAttendanceValid(atts: seq<Attendance>, students: seq<Student>, nextId: nat, s: Student)
    requires AttendanceTableValid(atts, students, nextId)
    ensures AttendanceTableValid(atts, students + [s], nextId)
  {
    forall i | 0 <= i < |atts|
      ensures IsStudentId(students + [s], atts[i].studentId)
    {
      var j :| 0 <= j < |students| && students[j].id == atts[i].studentId;
      assert (students + [s])[j] == students[j];
    }
  }

  /** Appending a well-formed period of an existing student under the next id keeps the table valid. */
  lemma AppendKeepsAttendanceValid(atts: seq<Attendance>, students: seq<Student>, nextId: nat, rec: Attendance)
    requires AttendanceTableValid(atts, students, nextId)
    requires rec.id == nextId && IsStudentId(students, rec.studentId) && WellFormedRecord(rec)
    ensures AttendanceTableValid(atts + [rec], students, nextId + 1)
  {
  }

  /** Rewriting a period with a well-formed one of the same id and owner keeps the table valid. */
  lemma UpdateKeepsAttendanceValid(atts: seq<Attendance>, students: seq<Student>, nextId: nat, k: nat, rec: Attendance)
    requires AttendanceTableValid(atts, students, nextId)
    requires k < |atts| && rec.id == atts[k].id && rec.studentId == atts[k].studentId && WellFormedRecord(rec)
    ensures AttendanceTableValid(atts[k := rec], students, nextId)
  {
  }

  /** Rewriting a period without moving it to another owner or date keeps one period per day. */
  lemma UpdateKeepsOnePerDay(atts: seq<Attendance>, k: nat, rec: Attendance)
    requires OnePerDay(atts)
    requires k < |atts| && rec.studentId == atts[k].studentId && rec.attendanceDate == atts[k].attendanceDate
    ensures OnePerDay(atts[k := rec])
  {
  }

  /** A new period dated `today` keeps one period per day when its owner had none in the lookup's range. */
  lemma AppendKeepsOnePerDay(atts: seq<Attendance>, rec: Attendance, today: Day)
    requires OnePerDay(atts)
    requires rec.attendanceDate == today
    requires FindRecordForDay(atts, rec.studentId, today).None?
    ensures OnePerDay(atts + [rec])
  {
  }
}
