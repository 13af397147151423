/** The signed-in user of a server action (actions/join-class.js,
  * actions/create-class.js): looked up by case-insensitive e-mail and, when there is
  * none, created on the spot with a placeholder password. */
module SessionUsers {
  import opened Wrappers
  import opened Finds
  import opened SchemaTypes
  import opened UserModel
  import opened Store
  import opened CollegeIds

  /** The document `User.create` is given for an unknown address: the college id is
    * the e-mail prefix; createdClasses and enrolledIn start empty. */
  function AutoUserInput(email: string, hashedPassword: string): UserInput {
    UserInput(Some(email), Some(hashedPassword), Some(CollegeIdOf(email)))
  }

  /** Either the user the action goes on with (`index` into the new state's users)
    * or the error `User.create` threw. */
  datatype Resolution = Resolved(index: nat, state: State) | Unresolved(error: DbError)

  /** The user the action goes on with is one whose e-mail matches the session's
    * ignoring case. */
  function ResolveUser(st: State, email: string, hashedPassword: string): (r: Resolution)
    ensures r.Resolved? ==> r.index < |r.state.users| && EqualsIgnoringCase(r.state.users[r.index].email, email)
  {
    match UserWithEmailIgnoringCase(st.users, email)
    case Some(i) => Resolved(i, st)
    case None =>
      match UserCreate(st, AutoUserInput(email, hashedPassword))
      case Err(e) => Unresolved(e)
      case Ok(u) =>
        assert AddUser(st, u).users[|st.users|] == u;
        Resolved(|st.users|, AddUser(st, u))
  }

  /** The lookup and, for an unknown address, `User.create` on the store: the index
    * of the user to go on with, or the error the insert threw. */
  method ResolveSessionUser(db: Database, email: string, hashedPassword: string) returns (r: Result<nat, DbError>)
    requires db.Valid()
    modifies db
    ensures db.Valid()
    ensures match ResolveUser(old(db.Snapshot()), email, hashedPassword)
      case Resolved(ui, st1) => r == Ok(ui) && db.Snapshot() == st1
      case Unresolved(e) => r == Err(e) && db.Snapshot() == old(db.Snapshot())
  {
    ResolveUserCases(db.Snapshot(), email, hashedPassword);
    var found := UserWithEmailIgnoringCase(db.users, email);
    if found.Some? {
      return Ok(found.value);
    }
    var index := |db.users|;
    var created := db.CreateUser(AutoUserInput(email, hashedPassword));
    if created.Err? {
      return Err(created.error);
    }
    r := Ok(index);
  }

  /** A known address changes nothing; an unknown one is inserted by `User.create`,
    * whose error, if it throws, is what the action reports. */
  lemma ResolveUserCases(st: State, email: string, hashedPassword: string)
    ensures var r := ResolveUser(st, email, hashedPassword);
      UserWithEmailIgnoringCase(st.users, email).Some? ==>
        r == Resolved(UserWithEmailIgnoringCase(st.users, email).value, st)
    ensures var r := ResolveUser(st, email, hashedPassword);
      UserWithEmailIgnoringCase(st.users, email).None? ==>
        var created := UserCreate(st, AutoUserInput(email, hashedPassword));
        && (r.Unresolved? <==> created.Err?)
        && (r.Unresolved? ==> r.error == created.error)
        && (r.Resolved? ==> r == Resolved(|st.users|, AddUser(st, created.value)))
  {
  }

  /** The user the action goes on with is the stored one the lookup found, or a new
    * one whose lists are empty; the classes are not touched. */
  lemma ResolvedUserBefore(st: State, email: string, hashedPassword: string)
    requires ResolveUser(st, email, hashedPassword).Resolved?
    ensures var r := ResolveUser(st, email, hashedPassword);
      r.state.classes == st.classes
    ensures var r := ResolveUser(st, email, hashedPassword);
      var u := r.state.users[r.index];
      match UserWithEmailIgnoringCase(st.users, email)
      case Some(i) => u == st.users[i]
      case None => u.enrolledIn == [] && u.createdClasses == []
  {
    ResolveUserCases(st, email, hashedPassword);
  }

  /** An unknown address always gets a new user whose college id is its prefix,
    * unless that prefix is empty or already taken; the e-mail itself cannot clash,
    * since an exact match would have been found by the case-insensitive lookup. */
  lemma {:induction false} AutoCreateSucceeds(st: State, email: string, hashedPassword: string)
    requires UserWithEmailIgnoringCase(st.users, email).None?
    requires email != "" && hashedPassword != "" && CollegeIdOf(email) != ""
    requires UserWithCollegeId(st.users, CollegeIdOf(email)).None?
    ensures var r := ResolveUser(st, email, hashedPassword);
      && r == Resolved(|st.users|, r.state)
      && r.state.users == st.users + [User(st.nextId, email, hashedPassword, CollegeIdOf(email),
                                           None, None, AttendanceStats(0, 0), [], [])]
      && r.state.classes == st.classes && r.state.enrollments == st.enrollments
  {
    ResolveUserCases(st, email, hashedPassword);
    ExactMatchFoundIgnoringCase(st.users, email);
  }

  lemma ResolveKeepsIndexes(st: State, email: string, hashedPassword: string)
    requires Consistent(st)
    ensures ResolveUser(st, email, hashedPassword).Resolved? ==> Consistent(ResolveUser(st, email, hashedPassword).state)
  {
    ResolveUserCases(st, email, hashedPassword);
    if UserWithEmailIgnoringCase(st.users, email).None? {
      var input := AutoUserInput(email, hashedPassword);
      if UserCreate(st, input).Ok? {
        AddUserConsistent(st, input);
      }
    }
  }

  /** `findOne` gives the same answer on two collections whose documents agree on
    * what the filter looks at. */
  lemma {:induction false} FirstIndexAgrees<T, U>(s: seq<T>, t: seq<U>, p: T -> bool, q: U -> bool)
    requires |s| == |t| && forall i :: 0 <= i < |s| ==> p(s[i]) == q(t[i])
    ensures FirstIndex(s, p) == FirstIndex(t, q)
  {
    if s != [] {
      FirstIndexAgrees(s[1..], t[1..], p, q);
    }
  }

  /** A user resolved once is resolved again, to the same document, once its lists
    * have grown. */
  lemma {:induction false} ResolveAgain(st: State, email: string, hashedPassword: string, users: seq<User>)
    requires ResolveUser(st, email, hashedPassword).Resolved?
    requires var r := ResolveUser(st, email, hashedPassword);
             |users| == |r.state.users| && forall i :: 0 <= i < |users| ==> users[i].email == r.state.users[i].email
    ensures var r := ResolveUser(st, email, hashedPassword);
            UserWithEmailIgnoringCase(users, email) == Some(r.index)
  {
    var r := ResolveUser(st, email, hashedPassword);
    ResolveUserCases(st, email, hashedPassword);
    var p := (u: User) => EqualsIgnoringCase(u.email, email);
    FirstIndexAgrees(users, r.state.users, p, p);
    if UserWithEmailIgnoringCase(st.users, email).None? {
      var u := r.state.users[|st.users|];
      assert r.state.users == st.users + [u];
      FoundAfterInsert(st.users, u, p);
    }
  }
}
