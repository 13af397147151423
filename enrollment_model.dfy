/** lib/models/enrollment.model.js: the Enrollment document, its two enums and the
  * compound unique index on (student, class). */
module EnrollmentModel {
  import opened Wrappers
  import opened SchemaTypes

  datatype EnrollmentStatus = Active | Inactive | Pending
  datatype Role = Student | Teacher

  datatype Enrollment = Enrollment(id: ObjectId, student: ObjectId, classId: ObjectId,
                                   status: EnrollmentStatus, role: Role)

  datatype EnrollmentInput = EnrollmentInput(student: Option<ObjectId>, classId: Option<ObjectId>,
                                             status: Option<string>, role: Option<string>)

  /** The `enum` validator of `status`: a missing value takes the default "active". */
  function ParseStatus(s: Option<string>): (r: Option<EnrollmentStatus>)
    ensures r.Some? <==> (s.None? || s.value in {"active", "inactive", "pending"})
    ensures s.None? ==> r == Some(Active)
  {
    match s
    case None => Some(Active)
    case Some(v) =>
      if v == "active" then Some(Active)
      else if v == "inactive" then Some(Inactive)
      else if v == "pending" then Some(Pending)
      else None
  }

  /** The `enum` validator of `role`: a missing value takes the default "student". */
  function ParseRole(s: Option<string>): (r: Option<Role>)
    ensures r.Some? <==> (s.None? || s.value in {"student", "teacher"})
    ensures s.None? ==> r == Some(Student)
  {
    match s
    case None => Some(Student)
    case Some(v) =>
      if v == "student" then Some(Student)
      else if v == "teacher" then Some(Teacher)
      else None
  }

  function EnrollmentFailures(input: EnrollmentInput): set<string> {
    FailsIf(input.student.None?, "student") + FailsIf(input.classId.None?, "class")
    + FailsIf(ParseStatus(input.status).None?, "status") + FailsIf(ParseRole(input.role).None?, "role")
  }

  /** `Enrollment.create` before it reaches the compound unique index. */
  function NewEnrollment(id: ObjectId, input: EnrollmentInput): (r: Result<Enrollment, DbError>)
    ensures r.Ok? <==> && input.student.Some? && input.classId.Some?
                       && ParseStatus(input.status).Some? && ParseRole(input.role).Some?
    ensures r.Err? ==> r.error == ValidationError(EnrollmentFailures(input))
    ensures r.Ok? ==> && r.value.id == id
                      && Some(r.value.student) == input.student && Some(r.value.classId) == input.classId
                      && Some(r.value.status) == ParseStatus(input.status)
                      && Some(r.value.role) == ParseRole(input.role)
  {
    var failed := EnrollmentFailures(input);
    if failed != {} then Err(ValidationError(failed))
    else Ok(Enrollment(id, input.student.value, input.classId.value,
                       ParseStatus(input.status).value, ParseRole(input.role).value))
  }

  /** The compound unique index `{ student: 1, class: 1 }`: at most one enrollment
    * per (student, class) pair, whatever its status. */
  predicate OneEnrollmentPerPair(es: seq<Enrollment>) {
    forall i, j :: 0 <= i < j < |es| ==> (es[i].student, es[i].classId) != (es[j].student, es[j].classId)
  }
}
