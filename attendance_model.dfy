/** lib/models/attendance.model.js: an attendance session with its GeoJSON anchor,
  * radius, status and the attendees appended to it. */
module AttendanceModel {
  import opened Wrappers
  import opened SchemaTypes

  datatype SessionStatus = SessionActive | SessionCompleted

  /** A GeoJSON point; its `type` can only be 'Point', so only the coordinates are kept. */
  datatype Point = Point(coordinates: seq<real>)

  datatype Attendee = Attendee(student: Option<ObjectId>, markedAt: Millis, location: Point)

  datatype AttendanceSession = AttendanceSession(
    id: ObjectId,
    classId: ObjectId,
    creator: ObjectId,
    startTime: Millis,
    endTime: Millis,
    location: Point,
    radius: real,
    status: SessionStatus,
    attendees: seq<Attendee>)

  datatype PointInput = PointInput(kind: Option<string>, coordinates: Option<seq<real>>)

  datatype AttendeeInput = AttendeeInput(student: Option<ObjectId>, markedAt: Option<Millis>, location: PointInput)

  datatype SessionInput = SessionInput(
    classId: Option<ObjectId>,
    creator: Option<ObjectId>,
    startTime: Option<Millis>,
    endTime: Option<Millis>,
    location: PointInput,
    radius: Option<real>,
    status: Option<string>)

  const DefaultRadius: real := 100.0

  /** The `enum` validator of `status`; a missing value takes the default 'active'. */
  function ParseSessionStatus(s: Option<string>): (r: Option<SessionStatus>)
    ensures r.Some? <==> (s.None? || s.value == "active" || s.value == "completed")
    ensures s.None? ==> r == Some(SessionActive)
  {
    match s
    case None => Some(SessionActive)
    case Some(v) =>
      if v == "active" then Some(SessionActive)
      else if v == "completed" then Some(SessionCompleted)
      else None
  }

  /** The failing paths of a GeoJSON sub-object at `prefix`: its `type` must be
    * 'Point' (the default when missing) and its coordinates are required. */
  function PointFailures(p: PointInput, prefix: string): set<string> {
    FailsIf(p.kind.Some? && p.kind.value != "Point", prefix + ".type")
    + FailsIf(p.coordinates.None?, prefix + ".coordinates")
  }

  function SessionFailures(input: SessionInput): set<string> {
    FailsIf(input.classId.None?, "class") + FailsIf(input.creator.None?, "creator")
    + FailsIf(input.endTime.None?, "endTime") + PointFailures(input.location, "location")
    + FailsIf(ParseSessionStatus(input.status).None?, "status")
  }

  /** `AttendanceSession.create` at time `now`: startTime defaults to now, radius to
    * 100 metres, status to 'active'; endTime, the class, the creator and the anchor's
    * coordinates are required. A new session has no attendees. */
  function NewSession(id: ObjectId, input: SessionInput, now: Millis): (r: Result<AttendanceSession, DbError>)
    ensures r.Ok? <==> && input.classId.Some? && input.creator.Some? && input.endTime.Some?
                       && input.location.coordinates.Some?
                       && (input.location.kind.None? || input.location.kind == Some("Point"))
                       && ParseSessionStatus(input.status).Some?
    ensures r.Err? ==> r.error == ValidationError(SessionFailures(input))
    ensures r.Ok? ==> && r.value.id == id
                      && Some(r.value.classId) == input.classId && Some(r.value.creator) == input.creator
                      && r.value.startTime == input.startTime.GetOr(now)
                      && Some(r.value.endTime) == input.endTime
                      && Some(r.value.location.coordinates) == input.location.coordinates
                      && r.value.radius == input.radius.GetOr(DefaultRadius)
                      && Some(r.value.status) == ParseSessionStatus(input.status)
                      && (input.status.None? ==> r.value.status == SessionActive)
                      && r.value.attendees == []
  {
    var failed := SessionFailures(input);
    if failed != {} then Err(ValidationError(failed))
    else Ok(AttendanceSession(id, input.classId.value, input.creator.value, input.startTime.GetOr(now),
                              input.endTime.value, Point(input.location.coordinates.value),
                              input.radius.GetOr(DefaultRadius), ParseSessionStatus(input.status).value, []))
  }

  /** One attendee entry: markedAt defaults to now, the location's coordinates are
    * required. The student reference is not required. */
  function NewAttendee(input: AttendeeInput, now: Millis): (r: Result<Attendee, DbError>)
    ensures r.Ok? <==> input.location.coordinates.Some?
                       && (input.location.kind.None? || input.location.kind == Some("Point"))
    ensures r.Err? ==> r.error == ValidationError(PointFailures(input.location, "location"))
    ensures r.Ok? ==> && r.value.student == input.student
                      && r.value.markedAt == input.markedAt.GetOr(now)
                      && Some(r.value.location.coordinates) == input.location.coordinates
  {
    var failed := PointFailures(input.location, "location");
    if failed != {} then Err(ValidationError(failed))
    else Ok(Attendee(input.student, input.markedAt.GetOr(now), Point(input.location.coordinates.value)))
  }

  /** Number of entries of `attendees` for `student`. */
  function EntriesFor(attendees: seq<Attendee>, student: ObjectId): nat {
    |set i | 0 <= i < |attendees| && attendees[i].student == Some(student)|
  }

  /** The schema puts no uniqueness on attendees: appending an entry for a student
    * already present is accepted and leaves that student listed twice. */
  lemma {:induction false} DuplicateAttendeeAccepted(s: AttendanceSession, input: AttendeeInput, now: Millis)
    requires |s.attendees| == 1 && s.attendees[0].student.Some?
    requires input.student == s.attendees[0].student && input.location.coordinates.Some?
    requires input.location.kind.None?
    ensures NewAttendee(input, now).Ok?
    ensures EntriesFor(s.attendees + [NewAttendee(input, now).value], input.student.value) == 2
  {
    var a := s.attendees + [NewAttendee(input, now).value];
    var sid := input.student.value;
    assert (set i | 0 <= i < |a| && a[i].student == Some(sid)) == {0, 1};
  }
}
