/**
 * Clients of the service that use only its contracts: the enrollment
 * handshake end to end, three marks on one day under the calendar-day policy,
 * and two marks under the demo policy.
 */
module Scenarios {
  import opened Entities
  import opened Tables
  import opened Service

  /** A first scan of an unknown finger on an empty service opens one pending row. */
  method FirstScan() returns (service: AttendanceService)
    ensures fresh(service)
    ensures service.Valid()
    ensures service.pending == [PendingStudent(1, None, "FP1", None, false)] && service.students == []
  {
    service := new AttendanceService();
    assert FindPending(service.pending, "FP1").None?;
    var echoed := service.CreatePendingStudentFromHardware("FP1");
    assert echoed == "FP1";
  }

  /** Two scans of one finger leave one pending row, and the poll reports its token. */
  method ScanTwiceThenPoll() returns (service: AttendanceService)
    ensures service.Valid()
    ensures service.pending == [PendingStudent(1, None, "FP1", None, false)] && service.students == []
  {
    service := FirstScan();
    assert AwaitsCompletion(service.pending[0], "FP1");
    var again := service.CreatePendingStudentFromHardware("FP1");
    var polled := PollAfterScan(service);
    assert polled == "FP1";
  }

  /** With the single scan still pending, the poll reports its token. */
  method PollAfterScan(service: AttendanceService) returns (polled: string)
    requires service.Valid()
    requires service.pending == [PendingStudent(1, None, "FP1", None, false)]
    ensures polled == "FP1"
  {
    assert Incomplete(service.pending[0]);
    assert FirstIndex(service.pending, Incomplete) == Some(0);
    polled := service.GetNewUsers();
  }

  /** Completing the form enrolls the student and empties the mailbox; a repeat finds nothing pending. */
  method CompleteThenPoll(service: AttendanceService, image: Option<string>)
    requires service.Valid()
    requires service.pending == [PendingStudent(1, None, "FP1", None, false)] && service.students == []
    modifies service
  {
    assert FindPending(service.pending, "FP1") == Some(0);
    assert FindStudentByMatric(service.students, "M1").None?;
    assert FindStudentByFingerprint(service.students, "FP1").None?;
    var added := service.AddStudent("FP1", "A", "M1", image);
    assert added.Ok?;
    assert service.pending[0].isCompleted && |service.pending| == 1;
    var polled := service.GetNewUsers();
    assert polled == "";
    var repeated := service.AddStudent("FP1", "B", "M2", image);
    assert repeated == Err(NotFound);
  }

  method SameDayMarks(service: AttendanceService)
    requires service.Valid() && service.attendances == []
    requires FindStudentByFingerprint(service.students, "FP1").Some?
    modifies service
  {
    var first := service.MarkAttendance("FP1", false, 100, "08:30 AM");
    assert first.Ok? && first.value.message == FirstSignIn("08:30 AM");
    assert service.attendances == [first.value.attendance];
    assert first.value.attendance.allSignIns == ["08:30 AM"];
    var second := service.MarkAttendance("FP1", false, 100, "08:45 AM");
    assert second.Ok? && second.value.message == SignInUpdated(2, "08:45 AM");
    assert second.value.attendance == MergeSignIn(first.value.attendance, "08:45 AM");
    assert second.value.attendance.allSignIns == ["08:30 AM"] + ["08:45 AM"];
    var third := service.MarkAttendance("FP1", false, 100, "09:00 AM");
    assert third.Ok? && third.value.message == SignInUpdated(3, "09:00 AM");
    assert |service.attendances| == 1;
  }

  method DemoMarks(service: AttendanceService)
    requires service.Valid() && service.attendances == []
    requires FindStudentByFingerprint(service.students, "FP1").Some?
    requires FindStudentByFingerprint(service.students, "FP2").None?
    modifies service
  {
    var unknown := service.MarkAttendance("FP2", true, 100, "09:05 AM");
    assert unknown == Err(NotFound) && service.attendances == [];
    var day1 := service.MarkAttendance("FP1", true, 101, "10:00 AM");
    var day2 := service.MarkAttendance("FP1", true, 101, "10:01 AM");
    assert |service.attendances| == 2;
    assert day2.Ok? && day2.value.message == DayMarked(2, "10:01 AM");
  }
}
