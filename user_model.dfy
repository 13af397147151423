/** lib/models/user.model.js: the User document, its defaults and its unique indexes. */
module UserModel {
  import opened Wrappers
  import opened SchemaTypes

  datatype AttendanceStats = AttendanceStats(totalSessions: int, attendedSessions: int)

  datatype User = User(
    id: ObjectId,
    email: string,
    password: string,
    collegeId: string,
    passwordResetToken: Option<string>,
    passwordResetExpires: Option<Millis>,
    attendanceStats: AttendanceStats,
    createdClasses: seq<ObjectId>,
    enrolledIn: seq<ObjectId>)

  /** The fields a caller of `User.create` supplies; everything else takes its default. */
  datatype UserInput = UserInput(email: Option<string>, password: Option<string>, collegeId: Option<string>)

  /** The paths whose `required` validator fails on `input`. */
  function MissingUserPaths(input: UserInput): set<string> {
    FailsIf(!RequiredString(input.email), "email") + FailsIf(!RequiredString(input.password), "password")
    + FailsIf(!RequiredString(input.collegeId), "collegeId")
  }

  /** `User.create` before it reaches the unique indexes: the required validators
    * on email, password and collegeId, then the schema defaults. */
  function NewUser(id: ObjectId, input: UserInput): (r: Result<User, DbError>)
    ensures r.Ok? <==> RequiredString(input.email) && RequiredString(input.password) && RequiredString(input.collegeId)
    ensures r.Err? ==> r.error == ValidationError(MissingUserPaths(input))
    ensures r.Ok? ==> && r.value.id == id
                      && Some(r.value.email) == input.email
                      && Some(r.value.password) == input.password
                      && Some(r.value.collegeId) == input.collegeId
    ensures r.Ok? ==> && r.value.passwordResetToken.None? && r.value.passwordResetExpires.None?
                      && r.value.attendanceStats == AttendanceStats(0, 0)
                      && r.value.createdClasses == [] && r.value.enrolledIn == []
  {
    var failed := MissingUserPaths(input);
    if failed != {} then Err(ValidationError(failed))
    else Ok(User(id, input.email.value, input.password.value, input.collegeId.value,
                 None, None, AttendanceStats(0, 0), [], []))
  }

  /** The unique index on `email` (exact, case-sensitive comparison). */
  predicate EmailsUnique(users: seq<User>) {
    forall i, j :: 0 <= i < j < |users| ==> users[i].email != users[j].email
  }

  /** The unique index on `collegeId`. */
  predicate CollegeIdsUnique(users: seq<User>) {
    forall i, j :: 0 <= i < j < |users| ==> users[i].collegeId != users[j].collegeId
  }
}
