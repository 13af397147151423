/** actions/join-class.js: a signed-in user joins a class by its code and becomes an
  * active student of it. */
module JoinClass {
  import opened Wrappers
  import opened Finds
  import opened SchemaTypes
  import opened UserModel
  import opened ClassModel
  import opened EnrollmentModel
  import opened Store
  import opened SessionUsers
  import opened Bcrypt

  /** `{ success: true, data }`, `{ success: false, error }` for the checks the action
    * makes itself, and the same with the message of an error a model threw. */
  datatype JoinReply = Joined(enrollment: Enrollment) | Refused(message: string) | Thrown(error: DbError)

  datatype Outcome = Outcome(reply: JoinReply, state: State)

  /** What the action does with the session's e-mail, the form's classCode and the
    * hash of its random placeholder password. */
  function JoinSpec(st: State, sessionEmail: Option<string>, classCode: Option<string>,
                    hashedPlaceholder: string): Outcome
  {
    if !RequiredString(sessionEmail) then Outcome(Refused("Unauthorized"), st)
    else if !RequiredString(classCode) then Outcome(Refused("Class code is required"), st)
    else
      match ResolveUser(st, sessionEmail.value, hashedPlaceholder)
      case Unresolved(e) => Outcome(Thrown(e), st)
      case Resolved(ui, st1) => JoinAs(st1, ui, classCode.value)
  }

  /** The checks after the user is known (`users[ui]` of `st1`). */
  function JoinAs(st1: State, ui: nat, classCode: string): Outcome
    requires ui < |st1.users|
  {
    var user := st1.users[ui];
    match ClassWithCode(st1.classes, classCode)
    case None => Outcome(Refused("Invalid class code"), st1)
    case Some(ci) =>
      var cls := st1.classes[ci];
      if cls.creator == user.id then Outcome(Refused("You cannot join your own class"), st1)
      else if EnrollmentOf(st1.enrollments, user.id, cls.id).Some? then
        Outcome(Refused("You are already enrolled in this class"), st1)
      else
        match EnrollmentCreate(st1, JoinInput(user.id, cls.id))
        case Err(e) => Outcome(Thrown(e), st1)
        case Ok(en) => Outcome(Joined(en), JoinedState(st1, en, user.id, cls.id))
  }

  function JoinInput(student: ObjectId, classId: ObjectId): EnrollmentInput {
    EnrollmentInput(Some(student), Some(classId), Some("active"), Some("student"))
  }

  /** The action on the store; `placeholder` is the `Math.random().toString(36)` it
    * hashes for a user it has to create. */
  method Join(db: Database, sessionEmail: Option<string>, classCode: Option<string>,
              placeholder: string, hash: Hasher) returns (reply: JoinReply)
    requires db.Valid()
    modifies db
    ensures db.Valid()
    ensures Outcome(reply, db.Snapshot()) == JoinSpec(old(db.Snapshot()), sessionEmail, classCode, hash(placeholder))
  {
    if !RequiredString(sessionEmail) {
      return Refused("Unauthorized");
    }
    if !RequiredString(classCode) {
      return Refused("Class code is required");
    }
    var resolved := ResolveSessionUser(db, sessionEmail.value, hash(placeholder));
    if resolved.Err? {
      return Thrown(resolved.error);
    }
    reply := JoinAsUser(db, resolved.value, classCode.value);
  }

  /** The rest of the action, once the user is `db.users[ui]`. */
  method JoinAsUser(db: Database, ui: nat, classCode: string) returns (reply: JoinReply)
    requires db.Valid() && ui < |db.users|
    modifies db
    ensures db.Valid()
    ensures Outcome(reply, db.Snapshot()) == JoinAs(old(db.Snapshot()), ui, classCode)
  {
    var userId := db.users[ui].id;
    var ci := ClassWithCode(db.classes, classCode);
    if ci.None? {
      return Refused("Invalid class code");
    }
    var cls := db.classes[ci.value];
    if cls.creator == userId {
      return Refused("You cannot join your own class");
    }
    if EnrollmentOf(db.enrollments, userId, cls.id).Some? {
      return Refused("You are already enrolled in this class");
    }
    var enrolled := db.CreateEnrollment(JoinInput(userId, cls.id));
    if enrolled.Err? {
      return Thrown(enrolled.error);
    }
    db.AppendClassEnrollment(cls.id, enrolled.value.id);
    db.AppendEnrolledIn(userId, enrolled.value.id);
    reply := Joined(enrolled.value);
  }

  /** The state after a successful `Enrollment.create` and the two `$push` updates. */
  function JoinedState(st1: State, en: Enrollment, userId: ObjectId, classId: ObjectId): State {
    var st2 := AddEnrollment(st1, en);
    st2.(classes := PushClassEnrollment(st2.classes, classId, en.id), users := PushEnrolledIn(st2.users, userId, en.id))
  }

  lemma JoinedStateConsistent(st1: State, userId: ObjectId, classId: ObjectId)
    requires Consistent(st1) && EnrollmentCreate(st1, JoinInput(userId, classId)).Ok?
    ensures Consistent(JoinedState(st1, EnrollmentCreate(st1, JoinInput(userId, classId)).value, userId, classId))
  {
    var en := EnrollmentCreate(st1, JoinInput(userId, classId)).value;
    var st2 := AddEnrollment(st1, en);
    AddEnrollmentConsistent(st1, JoinInput(userId, classId));
    PushesConsistent(st2, userId, classId, en.id);
    var st3 := st2.(classes := PushClassEnrollment(st2.classes, classId, en.id));
    PushesConsistent(st3, userId, classId, en.id);
  }

  /** Every outcome keeps the unique indexes, including a join that created the user
    * and then stopped. */
  lemma JoinKeepsIndexes(st: State, sessionEmail: Option<string>, classCode: Option<string>, hashedPlaceholder: string)
    requires Consistent(st)
    ensures Consistent(JoinSpec(st, sessionEmail, classCode, hashedPlaceholder).state)
  {
    var o := JoinSpec(st, sessionEmail, classCode, hashedPlaceholder);
    if RequiredString(sessionEmail) && RequiredString(classCode) {
      var r := ResolveUser(st, sessionEmail.value, hashedPlaceholder);
      ResolveKeepsIndexes(st, sessionEmail.value, hashedPlaceholder);
      if r.Resolved? {
        var st1 := r.state;
        var user := st1.users[r.index];
        var ci := ClassWithCode(st1.classes, classCode.value);
        if ci.Some? {
          var cls := st1.classes[ci.value];
          var input := JoinInput(user.id, cls.id);
          if cls.creator != user.id && EnrollmentOf(st1.enrollments, user.id, cls.id).None?
             && EnrollmentCreate(st1, input).Ok? {
            JoinedStateConsistent(st1, user.id, cls.id);
            assert o.state == JoinedState(st1, EnrollmentCreate(st1, input).value, user.id, cls.id);
          } else {
            assert o.state == st1;
          }
        } else {
          assert o.state == st1;
        }
      } else {
        assert o.state == st;
      }
    } else {
      assert o.state == st;
    }
  }

  /** What a successful JoinAs did: the class with the code, the enrollment created
    * for the pair, and the state after the two `$push` updates. */
  lemma JoinAsJoined(st1: State, ui: nat, classCode: string)
    requires ui < |st1.users| && JoinAs(st1, ui, classCode).reply.Joined?
    ensures var o := JoinAs(st1, ui, classCode);
      var ci := ClassWithCode(st1.classes, classCode);
      && ci.Some?
      && var cls := st1.classes[ci.value];
         && cls.creator != st1.users[ui].id
         && EnrollmentOf(st1.enrollments, st1.users[ui].id, cls.id).None?
         && o.reply.enrollment == EnrollmentCreate(st1, JoinInput(st1.users[ui].id, cls.id)).value
         && o.state == JoinedState(st1, o.reply.enrollment, st1.users[ui].id, cls.id)
         && o.state.users[ui].enrolledIn == st1.users[ui].enrolledIn + [o.reply.enrollment.id]
         && o.state.classes[ci.value].enrollments == cls.enrollments + [o.reply.enrollment.id]
  {
  }

  /** A successful join stores an active student enrollment of the session's user in
    * the class with that code, and appends its id to both the class's enrollments and
    * the user's enrolledIn: each list is what it was before (empty for a user created
    * on the spot) plus that one id. */
  lemma {:induction false} JoinedAsActiveStudent(st: State, sessionEmail: Option<string>, classCode: Option<string>,
                                                 hashedPlaceholder: string)
    requires JoinSpec(st, sessionEmail, classCode, hashedPlaceholder).reply.Joined?
    ensures var o := JoinSpec(st, sessionEmail, classCode, hashedPlaceholder);
      var en := o.reply.enrollment;
      && en.status == Active && en.role == Student
      && |o.state.enrollments| > 0 && o.state.enrollments[|o.state.enrollments| - 1] == en
      && UserWithEmailIgnoringCase(o.state.users, sessionEmail.value).Some?
      && ClassWithCode(o.state.classes, classCode.value).Some?
      && var user := o.state.users[UserWithEmailIgnoringCase(o.state.users, sessionEmail.value).value];
         var cls := o.state.classes[ClassWithCode(o.state.classes, classCode.value).value];
         && en.student == user.id && en.classId == cls.id
         && user.enrolledIn == (match UserWithEmailIgnoringCase(st.users, sessionEmail.value)
                                case Some(i) => st.users[i].enrolledIn
                                case None => []) + [en.id]
         && ClassWithCode(st.classes, classCode.value) == ClassWithCode(o.state.classes, classCode.value)
         && cls.enrollments == st.classes[ClassWithCode(o.state.classes, classCode.value).value].enrollments + [en.id]
  {
    var o := JoinSpec(st, sessionEmail, classCode, hashedPlaceholder);
    var r := ResolveUser(st, sessionEmail.value, hashedPlaceholder);
    assert r.Resolved? && o == JoinAs(r.state, r.index, classCode.value);
    var st1 := r.state;
    JoinAsJoined(st1, r.index, classCode.value);
    var user := st1.users[r.index];
    var ci := ClassWithCode(st1.classes, classCode.value).value;
    var cls := st1.classes[ci];
    ResolveAgain(st, sessionEmail.value, hashedPlaceholder, o.state.users);
    var p := (c: Class) => c.classCode == classCode.value;
    FirstIndexAgrees(o.state.classes, st1.classes, p, p);
    assert o.state.users[r.index].id == user.id;
    assert o.state.classes[ci].id == cls.id;
    ResolvedUserBefore(st, sessionEmail.value, hashedPlaceholder);
  }

  /** The compound index and the action's own check together: once joined, the same
    * user joining with the same code is refused and nothing changes. */
  lemma {:induction false} JoinTwiceRefused(st: State, sessionEmail: Option<string>, classCode: Option<string>,
                                            hashedPlaceholder: string, hashedPlaceholder2: string)
    requires JoinSpec(st, sessionEmail, classCode, hashedPlaceholder).reply.Joined?
    ensures var st' := JoinSpec(st, sessionEmail, classCode, hashedPlaceholder).state;
      JoinSpec(st', sessionEmail, classCode, hashedPlaceholder2)
        == Outcome(Refused("You are already enrolled in this class"), st')
  {
    var o := JoinSpec(st, sessionEmail, classCode, hashedPlaceholder);
    var r := ResolveUser(st, sessionEmail.value, hashedPlaceholder);
    assert r.Resolved? && o == JoinAs(r.state, r.index, classCode.value);
    var st1 := r.state;
    JoinAsJoined(st1, r.index, classCode.value);
    var user := st1.users[r.index];
    var ci := ClassWithCode(st1.classes, classCode.value).value;
    var cls := st1.classes[ci];
    ResolveAgain(st, sessionEmail.value, hashedPlaceholder, o.state.users);
    ResolveUserCases(o.state, sessionEmail.value, hashedPlaceholder2);
    var p := (c: Class) => c.classCode == classCode.value;
    FirstIndexAgrees(o.state.classes, st1.classes, p, p);
    assert o.state.users[r.index].id == user.id;
    assert o.state.classes[ci].id == cls.id && o.state.classes[ci].creator == cls.creator;
    var q := (e: Enrollment) => e.student == user.id && e.classId == cls.id;
    assert q(o.state.enrollments[|o.state.enrollments| - 1]);
    assert JoinSpec(o.state, sessionEmail, classCode, hashedPlaceholder2) == JoinAs(o.state, r.index, classCode.value);
  }

  /** A wrong code is reported only after the user lookup, so a first-time user is
    * created even though nothing is joined. */
  lemma {:induction false} InvalidCodeKeepsNewUser(st: State, sessionEmail: Option<string>, classCode: Option<string>,
                                                   hashedPlaceholder: string)
    requires RequiredString(sessionEmail) && RequiredString(classCode)
    requires UserWithEmailIgnoringCase(st.users, sessionEmail.value).None?
    requires UserCreate(st, AutoUserInput(sessionEmail.value, hashedPlaceholder)).Ok?
    requires ClassWithCode(st.classes, classCode.value).None?
    ensures var o := JoinSpec(st, sessionEmail, classCode, hashedPlaceholder);
      && o.reply == Refused("Invalid class code")
      && |o.state.users| == |st.users| + 1
      && o.state.users[|st.users|].email == sessionEmail.value
      && o.state.classes == st.classes && o.state.enrollments == st.enrollments
  {
    var r := ResolveUser(st, sessionEmail.value, hashedPlaceholder);
    assert r.state.classes == st.classes;
  }

  /** The creator of a class is never enrolled in it by this action. */
  lemma CreatorRefused(st: State, sessionEmail: Option<string>, classCode: Option<string>, hashedPlaceholder: string)
    requires RequiredString(sessionEmail) && RequiredString(classCode)
    requires UserWithEmailIgnoringCase(st.users, sessionEmail.value).Some?
    requires ClassWithCode(st.classes, classCode.value).Some?
    requires st.classes[ClassWithCode(st.classes, classCode.value).value].creator
             == st.users[UserWithEmailIgnoringCase(st.users, sessionEmail.value).value].id
    ensures JoinSpec(st, sessionEmail, classCode, hashedPlaceholder)
            == Outcome(Refused("You cannot join your own class"), st)
  {
  }

  /** Every reply but Joined leaves classes and enrollments as they were; the users
    * are unchanged too, except for the one appended when the session's email had no
    * account yet. */
  lemma {:induction false} RefusalChangesOnlyUsers(st: State, sessionEmail: Option<string>, classCode: Option<string>,
                                                   hashedPlaceholder: string)
    ensures var o := JoinSpec(st, sessionEmail, classCode, hashedPlaceholder);
      !o.reply.Joined? ==>
        && o.state.classes == st.classes && o.state.enrollments == st.enrollments
        && (|| o.state.users == st.users
            || (&& sessionEmail.Some? && UserWithEmailIgnoringCase(st.users, sessionEmail.value).None?
                && |o.state.users| == |st.users| + 1 && o.state.users[..|st.users|] == st.users))
  {
    var o := JoinSpec(st, sessionEmail, classCode, hashedPlaceholder);
    if RequiredString(sessionEmail) && RequiredString(classCode) && !o.reply.Joined? {
      ResolveUserCases(st, sessionEmail.value, hashedPlaceholder);
      var r := ResolveUser(st, sessionEmail.value, hashedPlaceholder);
      if r.Resolved? {
        assert o == JoinAs(r.state, r.index, classCode.value);
        JoinAsRefusalKeeps(r.state, r.index, classCode.value);
        if UserWithEmailIgnoringCase(st.users, sessionEmail.value).None? {
          assert r.state.users[..|st.users|] == st.users;
        }
      }
    }
  }

  /** After the user is known, a refusal or a thrown error changes nothing. */
  lemma JoinAsRefusalKeeps(st1: State, ui: nat, classCode: string)
    requires ui < |st1.users| && !JoinAs(st1, ui, classCode).reply.Joined?
    ensures JoinAs(st1, ui, classCode).state == st1
  {
  }
}
