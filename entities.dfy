/**
 * The three tables' row shapes (pending registrations, students, attendance
 * periods) and the outcomes the service reports.
 */
module Entities {

  datatype Option<T> = None | Some(value: T)

  /** A time of day as the service formats it (`hh:mm AM`); never inspected. */
  type Time = string

  /** A calendar date, as a day number. */
  type Day = int

  /**
   * A scan awaiting completion. While incomplete, `matric` holds the scanned
   * fingerprint token; completion overwrites it with the real matric number
   * and fills in `name` and `image`.
   */
  datatype PendingStudent = PendingStudent(
    id: nat,
    name: Option<string>,
    matric: string,
    image: Option<string>,
    isCompleted: bool)

  /** An enrolled student; `matric` and `fingerprintId` are unique columns. */
  datatype Student = Student(
    id: nat,
    name: string,
    matric: string,
    fingerprintId: string,
    image: Option<string>)

  /** One attendance period: one student's sign-ins on one date. */
  datatype Attendance = Attendance(
    id: nat,
    studentId: nat,
    attendanceDate: Day,
    firstSignIn: Time,
    lastSignIn: Time,
    signInCount: nat,
    allSignIns: seq<Time>)

  /** The column a conflicting enrollment collides on. */
  datatype Field = Matric | FingerprintId

  /** `NotFoundException` and `ConflictException`, naming the colliding field. */
  datatype Error = NotFound | Conflict(field: Field)

  datatype Result<T> = Ok(value: T) | Err(error: Error)
}
