/** The MongoDB collections the account and class operations work on: users, classes
  * and enrollments, with the unique indexes of their schemas as the store invariant.
  * `Database` is the mutable store; `State` is its value, on which the operations
  * are specified. */
module Store {
  import opened Wrappers
  import opened Finds
  import opened SchemaTypes
  import opened UserModel
  import opened ClassModel
  import opened EnrollmentModel

  datatype State = State(users: seq<User>, classes: seq<Class>, enrollments: seq<Enrollment>, nextId: ObjectId)

  /** The unique indexes (`_id` of every collection, User.email, User.collegeId,
    * Class.classCode, Enrollment (student, class)) and the id allocator being fresh. */
  predicate Consistent(st: State) {
    && EmailsUnique(st.users) && CollegeIdsUnique(st.users)
    && ClassCodesUnique(st.classes) && OneEnrollmentPerPair(st.enrollments)
    && (forall i, j :: 0 <= i < j < |st.users| ==> st.users[i].id != st.users[j].id)
    && (forall i, j :: 0 <= i < j < |st.classes| ==> st.classes[i].id != st.classes[j].id)
    && (forall i, j :: 0 <= i < j < |st.enrollments| ==> st.enrollments[i].id != st.enrollments[j].id)
    && (forall i :: 0 <= i < |st.users| ==> st.users[i].id < st.nextId)
    && (forall i :: 0 <= i < |st.classes| ==> st.classes[i].id < st.nextId)
    && (forall i :: 0 <= i < |st.enrollments| ==> st.enrollments[i].id < st.nextId)
  }

  /** Case folding of the ASCII letters only. A RegExp with the `i` flag folds every
    * letter (so 'É' matches 'é'); the model folds just 'A'..'Z'. */
  function Lower(c: char): char {
    if 'A' <= c <= 'Z' then (c as int + 32) as char else c
  }

  predicate EqualsIgnoringCase(a: string, b: string) {
    |a| == |b| && forall i :: 0 <= i < |a| ==> Lower(a[i]) == Lower(b[i])
  }

  /** `User.findOne({ email })`. */
  function UserWithEmail(users: seq<User>, email: string): Option<nat> {
    FirstIndex(users, (u: User) => u.email == email)
  }

  /** `User.findOne({ collegeId })`. */
  function UserWithCollegeId(users: seq<User>, collegeId: string): Option<nat> {
    FirstIndex(users, (u: User) => u.collegeId == collegeId)
  }

  /** `User.findOne({ email: { $regex: ^email$, 'i' } })`. */
  function UserWithEmailIgnoringCase(users: seq<User>, email: string): Option<nat> {
    FirstIndex(users, (u: User) => EqualsIgnoringCase(u.email, email))
  }

  /** `Class.findOne({ classCode })`. */
  function ClassWithCode(classes: seq<Class>, code: string): Option<nat> {
    FirstIndex(classes, (c: Class) => c.classCode == code)
  }

  /** `Enrollment.findOne({ student, class })`. */
  function EnrollmentOf(es: seq<Enrollment>, student: ObjectId, classId: ObjectId): Option<nat> {
    FirstIndex(es, (e: Enrollment) => e.student == student && e.classId == classId)
  }

  /** Under the case-insensitive equality this model uses for the lookup, it finds at
    * least what an exact search finds. The unescaped regular expression the code
    * builds does not have this property for addresses holding metacharacters. */
  lemma ExactMatchFoundIgnoringCase(users: seq<User>, email: string)
    ensures UserWithEmailIgnoringCase(users, email).None? ==> UserWithEmail(users, email).None?
  {
    if UserWithEmailIgnoringCase(users, email).None? {
      forall j | 0 <= j < |users| ensures users[j].email != email {
        assert !EqualsIgnoringCase(users[j].email, email);
      }
    }
  }

  /** `User.create`: schema validation, then the unique indexes on email and on
    * collegeId (the first violated one is reported), then the insert with a fresh id. */
  function UserCreate(st: State, input: UserInput): (r: Result<User, DbError>)
    ensures r.Ok? ==> r == NewUser(st.nextId, input)
    ensures r.Ok? <==> && NewUser(st.nextId, input).Ok?
                       && UserWithEmail(st.users, input.email.value).None?
                       && UserWithCollegeId(st.users, input.collegeId.value).None?
    ensures NewUser(st.nextId, input).Err? ==> r == NewUser(st.nextId, input)
  {
    match NewUser(st.nextId, input)
    case Err(e) => Err(e)
    case Ok(u) =>
      if UserWithEmail(st.users, u.email).Some? then Err(DuplicateKey("email"))
      else if UserWithCollegeId(st.users, u.collegeId).Some? then Err(DuplicateKey("collegeId"))
      else Ok(u)
  }

  function AddUser(st: State, u: User): State {
    st.(users := st.users + [u], nextId := st.nextId + 1)
  }

  /** `Class.create`: schema validation, then the unique index on classCode. */
  function ClassCreate(st: State, input: ClassInput): (r: Result<Class, DbError>)
    ensures r.Ok? ==> r == NewClass(st.nextId, input)
    ensures r.Ok? <==> NewClass(st.nextId, input).Ok? && ClassWithCode(st.classes, input.classCode.value).None?
    ensures NewClass(st.nextId, input).Err? ==> r == NewClass(st.nextId, input)
  {
    match NewClass(st.nextId, input)
    case Err(e) => Err(e)
    case Ok(c) => if ClassWithCode(st.classes, c.classCode).Some? then Err(DuplicateKey("classCode")) else Ok(c)
  }

  function AddClass(st: State, c: Class): State {
    st.(classes := st.classes + [c], nextId := st.nextId + 1)
  }

  /** `Enrollment.create`: schema validation, then the compound unique index. */
  function EnrollmentCreate(st: State, input: EnrollmentInput): (r: Result<Enrollment, DbError>)
    ensures r.Ok? ==> r == NewEnrollment(st.nextId, input)
    ensures r.Ok? <==> NewEnrollment(st.nextId, input).Ok?
                       && EnrollmentOf(st.enrollments, input.student.value, input.classId.value).None?
    ensures NewEnrollment(st.nextId, input).Err? ==> r == NewEnrollment(st.nextId, input)
  {
    match NewEnrollment(st.nextId, input)
    case Err(e) => Err(e)
    case Ok(en) =>
      if EnrollmentOf(st.enrollments, en.student, en.classId).Some? then Err(DuplicateKey("student")) else Ok(en)
  }

  function AddEnrollment(st: State, e: Enrollment): State {
    st.(enrollments := st.enrollments + [e], nextId := st.nextId + 1)
  }

  /** `User.findByIdAndUpdate(userId, { $push: { enrolledIn: enrollmentId } })`. */
  function PushEnrolledIn(users: seq<User>, userId: ObjectId, enrollmentId: ObjectId): (r: seq<User>)
    ensures |r| == |users|
    ensures forall i :: 0 <= i < |users| ==>
              r[i].enrolledIn == (if users[i].id == userId then users[i].enrolledIn + [enrollmentId] else users[i].enrolledIn)
    ensures forall i :: 0 <= i < |users| ==> r[i] == users[i].(enrolledIn := r[i].enrolledIn)
  {
    seq(|users|, i requires 0 <= i < |users| =>
      if users[i].id == userId then users[i].(enrolledIn := users[i].enrolledIn + [enrollmentId]) else users[i])
  }

  /** `User.findByIdAndUpdate(userId, { $push: { createdClasses: classId } })`. */
  function PushCreatedClass(users: seq<User>, userId: ObjectId, classId: ObjectId): (r: seq<User>)
    ensures |r| == |users|
    ensures forall i :: 0 <= i < |users| ==>
              r[i].createdClasses == (if users[i].id == userId then users[i].createdClasses + [classId] else users[i].createdClasses)
    ensures forall i :: 0 <= i < |users| ==> r[i] == users[i].(createdClasses := r[i].createdClasses)
  {
    seq(|users|, i requires 0 <= i < |users| =>
      if users[i].id == userId then users[i].(createdClasses := users[i].createdClasses + [classId]) else users[i])
  }

  /** `Class.findByIdAndUpdate(classId, { $push: { enrollments: enrollmentId } })`. */
  function PushClassEnrollment(classes: seq<Class>, classId: ObjectId, enrollmentId: ObjectId): (r: seq<Class>)
    ensures |r| == |classes|
    ensures forall i :: 0 <= i < |classes| ==>
              r[i].enrollments == (if classes[i].id == classId then classes[i].enrollments + [enrollmentId] else classes[i].enrollments)
    ensures forall i :: 0 <= i < |classes| ==> r[i] == classes[i].(enrollments := r[i].enrollments)
  {
    seq(|classes|, i requires 0 <= i < |classes| =>
      if classes[i].id == classId then classes[i].(enrollments := classes[i].enrollments + [enrollmentId]) else classes[i])
  }

  /** Inserting what `User.create` accepted keeps every index unique. */
  lemma AddUserConsistent(st: State, input: UserInput)
    requires Consistent(st) && UserCreate(st, input).Ok?
    ensures Consistent(AddUser(st, UserCreate(st, input).value))
  {
    var u := UserCreate(st, input).value;
    var users := st.users + [u];
    forall i | 0 <= i < |st.users| ensures users[i].email != u.email && users[i].collegeId != u.collegeId {
      assert !((u': User) => u'.email == u.email)(st.users[i]);
      assert !((u': User) => u'.collegeId == u.collegeId)(st.users[i]);
    }
  }

  lemma AddClassConsistent(st: State, input: ClassInput)
    requires Consistent(st) && ClassCreate(st, input).Ok?
    ensures Consistent(AddClass(st, ClassCreate(st, input).value))
  {
    var c := ClassCreate(st, input).value;
    forall i | 0 <= i < |st.classes| ensures st.classes[i].classCode != c.classCode {
      assert !((c': Class) => c'.classCode == c.classCode)(st.classes[i]);
    }
  }

  lemma AddEnrollmentConsistent(st: State, input: EnrollmentInput)
    requires Consistent(st) && EnrollmentCreate(st, input).Ok?
    ensures Consistent(AddEnrollment(st, EnrollmentCreate(st, input).value))
  {
    var e := EnrollmentCreate(st, input).value;
    forall i | 0 <= i < |st.enrollments|
      ensures (st.enrollments[i].student, st.enrollments[i].classId) != (e.student, e.classId)
    {
      assert !((e': Enrollment) => e'.student == e.student && e'.classId == e.classId)(st.enrollments[i]);
    }
  }

  /** The two `$push` updates on users change neither `_id` nor email at any position. */
  lemma UserPushesKeepKeys(users: seq<User>, userId: ObjectId, id: ObjectId)
    ensures forall i :: 0 <= i < |users| ==>
              && PushCreatedClass(users, userId, id)[i].id == users[i].id
              && PushCreatedClass(users, userId, id)[i].email == users[i].email
    ensures forall i :: 0 <= i < |users| ==>
              && PushEnrolledIn(users, userId, id)[i].id == users[i].id
              && PushEnrolledIn(users, userId, id)[i].email == users[i].email
  {
  }

  /** Replacing the users by documents with the same `_id`, email and collegeId,
    * position by position, keeps every index. */
  lemma SameUserKeys(st: State, users: seq<User>)
    requires Consistent(st) && |users| == |st.users|
    requires forall i :: 0 <= i < |users| ==>
               users[i].id == st.users[i].id && users[i].email == st.users[i].email
               && users[i].collegeId == st.users[i].collegeId
    ensures Consistent(st.(users := users))
  {
  }

  /** The same for classes, with `_id` and classCode. */
  lemma SameClassKeys(st: State, classes: seq<Class>)
    requires Consistent(st) && |classes| == |st.classes|
    requires forall i :: 0 <= i < |classes| ==>
               classes[i].id == st.classes[i].id && classes[i].classCode == st.classes[i].classCode
    ensures Consistent(st.(classes := classes))
  {
  }

  /** `$push` onto a list field changes no indexed field. */
  lemma PushesConsistent(st: State, userId: ObjectId, classId: ObjectId, id: ObjectId)
    requires Consistent(st)
    ensures Consistent(st.(users := PushEnrolledIn(st.users, userId, id)))
    ensures Consistent(st.(users := PushCreatedClass(st.users, userId, id)))
    ensures Consistent(st.(classes := PushClassEnrollment(st.classes, classId, id)))
  {
    SameUserKeys(st, PushEnrolledIn(st.users, userId, id));
    SameUserKeys(st, PushCreatedClass(st.users, userId, id));
    SameClassKeys(st, PushClassEnrollment(st.classes, classId, id));
  }

  /** The mutable store: the three collections and the id allocator. */
  class Database {
    var users: seq<User>
    var classes: seq<Class>
    var enrollments: seq<Enrollment>
    var nextId: ObjectId

    function Snapshot(): State
      reads this
    {
      State(users, classes, enrollments, nextId)
    }

    ghost predicate Valid()
      reads this
    {
      Consistent(Snapshot())
    }

    constructor ()
      ensures Valid() && Snapshot() == State([], [], [], 0)
    {
      users, classes, enrollments, nextId := [], [], [], 0;
    }

    /** `User.create(input)`. */
    method CreateUser(input: UserInput) returns (r: Result<User, DbError>)
      requires Valid()
      modifies this
      ensures Valid()
      ensures r == UserCreate(old(Snapshot()), input)
      ensures Snapshot() == if r.Ok? then AddUser(old(Snapshot()), r.value) else old(Snapshot())
    {
      r := UserCreate(Snapshot(), input);
      if r.Ok? {
        AddUserConsistent(Snapshot(), input);
        users, nextId := users + [r.value], nextId + 1;
      }
    }

    /** `Class.create(input)`. */
    method CreateClass(input: ClassInput) returns (r: Result<Class, DbError>)
      requires Valid()
      modifies this
      ensures Valid()
      ensures r == ClassCreate(old(Snapshot()), input)
      ensures Snapshot() == if r.Ok? then AddClass(old(Snapshot()), r.value) else old(Snapshot())
    {
      r := ClassCreate(Snapshot(), input);
      if r.Ok? {
        AddClassConsistent(Snapshot(), input);
        classes, nextId := classes + [r.value], nextId + 1;
      }
    }

    /** `Enrollment.create(input)`. */
    method CreateEnrollment(input: EnrollmentInput) returns (r: Result<Enrollment, DbError>)
      requires Valid()
      modifies this
      ensures Valid()
      ensures r == EnrollmentCreate(old(Snapshot()), input)
      ensures Snapshot() == if r.Ok? then AddEnrollment(old(Snapshot()), r.value) else old(Snapshot())
    {
      r := EnrollmentCreate(Snapshot(), input);
      if r.Ok? {
        AddEnrollmentConsistent(Snapshot(), input);
        enrollments, nextId := enrollments + [r.value], nextId + 1;
      }
    }

    method AppendEnrolledIn(userId: ObjectId, enrollmentId: ObjectId)
      requires Valid()
      modifies this
      ensures Valid()
      ensures Snapshot() == old(Snapshot()).(users := PushEnrolledIn(old(users), userId, enrollmentId))
    {
      PushesConsistent(Snapshot(), userId, 0, enrollmentId);
      users := PushEnrolledIn(users, userId, enrollmentId);
    }

    method AppendCreatedClass(userId: ObjectId, classId: ObjectId)
      requires Valid()
      modifies this
      ensures Valid()
      ensures Snapshot() == old(Snapshot()).(users := PushCreatedClass(old(users), userId, classId))
    {
      PushesConsistent(Snapshot(), userId, 0, classId);
      users := PushCreatedClass(users, userId, classId);
    }

    method AppendClassEnrollment(classId: ObjectId, enrollmentId: ObjectId)
      requires Valid()
      modifies this
      ensures Valid()
      ensures Snapshot() == old(Snapshot()).(classes := PushClassEnrollment(old(classes), classId, enrollmentId))
    {
      PushesConsistent(Snapshot(), 0, classId, enrollmentId);
      classes := PushClassEnrollment(classes, classId, enrollmentId);
    }

    /** `user.save()` on a document loaded from this collection, with its indexed
      * fields untouched. */
    method SaveUser(i: nat, u: User)
      requires Valid() && i < |users|
      requires u.id == users[i].id && u.email == users[i].email && u.collegeId == users[i].collegeId
      modifies this
      ensures Valid()
      ensures Snapshot() == old(Snapshot()).(users := old(users)[i := u])
    {
      users := users[i := u];
      assert forall j :: 0 <= j < |users| ==>
        users[j].id == old(users)[j].id && users[j].email == old(users)[j].email
        && users[j].collegeId == old(users)[j].collegeId;
    }
  }
}
