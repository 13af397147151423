/** lib/models/attendanceRecord.model.js: a per-student attendance record. */
module AttendanceRecordModel {
  import opened Wrappers
  import opened SchemaTypes

  datatype AttendanceRecord = AttendanceRecord(classId: ObjectId, student: ObjectId, session: ObjectId,
                                               isPresent: bool, markedAt: Millis)

  datatype RecordInput = RecordInput(classId: Option<ObjectId>, student: Option<ObjectId>,
                                     session: Option<ObjectId>, isPresent: Option<bool>,
                                     markedAt: Option<Millis>)

  function RecordFailures(input: RecordInput): set<string> {
    FailsIf(input.classId.None?, "class") + FailsIf(input.student.None?, "student")
    + FailsIf(input.session.None?, "session")
  }

  /** `AttendanceRecord.create` at time `now`: the three references are required,
    * isPresent defaults to false and markedAt to now. */
  function NewRecord(input: RecordInput, now: Millis): (r: Result<AttendanceRecord, DbError>)
    ensures r.Ok? <==> input.classId.Some? && input.student.Some? && input.session.Some?
    ensures r.Err? ==> r.error == ValidationError(RecordFailures(input))
    ensures r.Ok? ==> && Some(r.value.classId) == input.classId && Some(r.value.student) == input.student
                      && Some(r.value.session) == input.session
                      && r.value.isPresent == input.isPresent.GetOr(false)
                      && r.value.markedAt == input.markedAt.GetOr(now)
  {
    var failed := RecordFailures(input);
    if failed != {} then Err(ValidationError(failed))
    else Ok(AttendanceRecord(input.classId.value, input.student.value, input.session.value,
                             input.isPresent.GetOr(false), input.markedAt.GetOr(now)))
  }

  /** Inserting a record: no unique index covers (session, student), so success never
    * depends on the records already stored. */
  function InsertRecord(records: seq<AttendanceRecord>, input: RecordInput, now: Millis)
    : (r: Result<seq<AttendanceRecord>, DbError>)
    ensures r.Ok? <==> NewRecord(input, now).Ok?
    ensures r.Ok? ==> r.value == records + [NewRecord(input, now).value]
  {
    match NewRecord(input, now)
    case Ok(rec) => Ok(records + [rec])
    case Err(e) => Err(e)
  }
}
