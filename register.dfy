/** app/api/auth/register/route.js: registration by e-mail and password, with the
  * college id taken from the e-mail address. */
module Register {
  import opened Wrappers
  import opened SchemaTypes
  import opened UserModel
  import opened Store
  import opened Bcrypt
  import opened CollegeIds

  /** The user as the 201 reply shows it: the password is left out. */
  datatype UserView = UserView(id: ObjectId, email: string, collegeId: string)

  datatype RegisterReply =
    | Created(user: UserView)            // 201
    | BadRequest(message: string)        // 400
    | ServerError(error: DbError)        // 500, with the error's message

  datatype Outcome = Outcome(reply: RegisterReply, state: State)

  /** The catch block's reading of MongoDB error 11000: the first field of the
    * violated index decides the message. */
  function DuplicateKeyMessage(field: string): (m: string)
    ensures m == "Email already exists" <==> field == "email"
    ensures m == "College ID already exists" <==> field != "email"
  {
    (if field == "email" then "Email" else "College ID") + " already exists"
  }

  /** The reply for an error thrown by `User.create`. */
  function ThrownReply(e: DbError): RegisterReply {
    match e
    case DuplicateKey(field) => BadRequest(DuplicateKeyMessage(field))
    case ValidationError(_) => ServerError(e)
  }

  /** The route on store state `st`: form validation, the two duplicate checks in
    * order, then one insertion with the hashed password. */
  function RegisterSpec(st: State, email: Option<string>, password: Option<string>, hash: Hasher): (o: Outcome)
    ensures o.reply.Created? <==> o.state != st
  {
    if !RequiredString(email) || !RequiredString(password) then
      Outcome(BadRequest("Email and password are required"), st)
    else
      var collegeId := CollegeIdOf(email.value);
      if collegeId == "" then Outcome(BadRequest("Invalid email format"), st)
      else if UserWithEmail(st.users, email.value).Some? then Outcome(BadRequest("Email already registered"), st)
      else if UserWithCollegeId(st.users, collegeId).Some? then Outcome(BadRequest("College ID already registered"), st)
      else match UserCreate(st, UserInput(email, Some(hash(password.value)), Some(collegeId)))
        case Err(e) => Outcome(ThrownReply(e), st)
        case Ok(u) =>
          assert AddUser(st, u).users[|st.users|] == u;
          Outcome(Created(UserView(u.id, u.email, u.collegeId)), AddUser(st, u))
  }

  method Post(db: Database, email: Option<string>, password: Option<string>, hash: Hasher)
    returns (reply: RegisterReply)
    requires db.Valid()
    modifies db
    ensures db.Valid()
    ensures Outcome(reply, db.Snapshot()) == RegisterSpec(old(db.Snapshot()), email, password, hash)
  {
    if email.None? || email.value == "" || password.None? || password.value == "" {
      return BadRequest("Email and password are required");
    }
    var collegeId := CollegeIdOf(email.value);
    if collegeId == "" {
      return BadRequest("Invalid email format");
    }
    if UserWithEmail(db.users, email.value).Some? {
      return BadRequest("Email already registered");
    }
    if UserWithCollegeId(db.users, collegeId).Some? {
      return BadRequest("College ID already registered");
    }
    var hashedPassword := hash(password.value);
    var created := db.CreateUser(UserInput(email, Some(hashedPassword), Some(collegeId)));
    match created {
      case Err(e) => reply := ThrownReply(e);
      case Ok(u) => reply := Created(UserView(u.id, u.email, u.collegeId));
    }
  }

  /** Every rejection, in the order the route checks: missing fields, then an empty
    * college id, then a taken e-mail, then a taken college id. */
  lemma RejectionOrder(st: State, email: Option<string>, password: Option<string>, hash: Hasher)
    ensures var r := RegisterSpec(st, email, password, hash).reply;
      && (!RequiredString(email) || !RequiredString(password) ==> r == BadRequest("Email and password are required"))
      && (RequiredString(email) && RequiredString(password) ==>
            && (CollegeIdOf(email.value) == "" ==> r == BadRequest("Invalid email format"))
            && (CollegeIdOf(email.value) != "" && UserWithEmail(st.users, email.value).Some? ==>
                  r == BadRequest("Email already registered"))
            && (CollegeIdOf(email.value) != "" && UserWithEmail(st.users, email.value).None?
                && UserWithCollegeId(st.users, CollegeIdOf(email.value)).Some? ==>
                  r == BadRequest("College ID already registered")))
  {
  }

  /** When every check passes, exactly one user is added, holding the e-mail, the
    * derived college id and the hashed password; the duplicate-key path of the catch
    * block is never taken, since both keys were looked up first. */
  lemma {:induction false} SuccessfulRegistration(st: State, email: string, password: string, hash: Hasher)
    requires email != "" && password != "" && NonEmptyHashes(hash)
    requires CollegeIdOf(email) != ""
    requires UserWithEmail(st.users, email).None? && UserWithCollegeId(st.users, CollegeIdOf(email)).None?
    ensures var o := RegisterSpec(st, Some(email), Some(password), hash);
      && o.reply == Created(UserView(st.nextId, email, CollegeIdOf(email)))
      && o.state.users == st.users + [User(st.nextId, email, hash(password), CollegeIdOf(email),
                                           None, None, AttendanceStats(0, 0), [], [])]
      && o.state.classes == st.classes && o.state.enrollments == st.enrollments
  {
    assert hash(password) != "";
    var input := UserInput(Some(email), Some(hash(password)), Some(CollegeIdOf(email)));
    assert NewUser(st.nextId, input).Ok?;
  }

  /** Registering the same address twice: the second attempt is refused and changes
    * nothing. */
  lemma {:induction false} RegisterTwice(st: State, email: string, password: string, password2: string,
                                         hash: Hasher)
    requires password2 != ""
    requires RegisterSpec(st, Some(email), Some(password), hash).reply.Created?
    ensures var after := RegisterSpec(st, Some(email), Some(password), hash).state;
            RegisterSpec(after, Some(email), Some(password2), hash) ==
              Outcome(BadRequest("Email already registered"), after)
  {
    var input := UserInput(Some(email), Some(hash(password)), Some(CollegeIdOf(email)));
    var u := UserCreate(st, input).value;
    var after := RegisterSpec(st, Some(email), Some(password), hash).state;
    assert after == AddUser(st, u);
    assert after.users[|st.users|] == u && u.email == email;
    assert ((v: User) => v.email == email)(after.users[|st.users|]);
    assert UserWithEmail(after.users, email).Some?;
  }

  /** Registration keeps every unique index of the store. */
  lemma {:induction false} RegisterKeepsIndexes(st: State, email: Option<string>, password: Option<string>,
                                                hash: Hasher)
    requires Consistent(st)
    ensures Consistent(RegisterSpec(st, email, password, hash).state)
  {
    if RequiredString(email) && RequiredString(password) {
      var input := UserInput(email, Some(hash(password.value)), Some(CollegeIdOf(email.value)));
      if UserCreate(st, input).Ok? {
        AddUserConsistent(st, input);
      }
    }
  }
}
