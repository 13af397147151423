/** actions/create-class.js: a signed-in user creates a class and becomes its
  * creator. */
module CreateClass {
  import opened Wrappers
  import opened Finds
  import opened SchemaTypes
  import opened UserModel
  import opened ClassModel
  import opened Store
  import opened SessionUsers
  import opened Bcrypt

  /** The characters `String.prototype.trim` removes: WhiteSpace and LineTerminator
    * of ECMAScript (section 12.2 and 12.3 of ECMA-262), Unicode category Zs included. */
  predicate IsJsWhitespace(c: char) {
    || c == '\U{0009}' || c == '\U{000B}' || c == '\U{000C}' || c == '\U{0020}' || c == '\U{00A0}'
    || c == '\U{FEFF}' || c == '\U{000A}' || c == '\U{000D}' || c == '\U{2028}' || c == '\U{2029}'
    || c == '\U{1680}' || ('\U{2000}' <= c <= '\U{200A}') || c == '\U{202F}' || c == '\U{205F}'
    || c == '\U{3000}'
  }

  /** The number of whitespace characters `s` starts with. */
  function LeadingSpace(s: string): (k: nat)
    ensures k <= |s|
    ensures forall i :: 0 <= i < k ==> IsJsWhitespace(s[i])
    ensures k == |s| || !IsJsWhitespace(s[k])
  {
    if s != [] && IsJsWhitespace(s[0]) then
      var k := LeadingSpace(s[1..]);
      assert forall i :: 1 <= i < k + 1 ==> s[i] == s[1..][i - 1];
      k + 1
    else 0
  }

  /** The number of whitespace characters `s` ends with. */
  function TrailingSpace(s: string): (k: nat)
    ensures k <= |s|
    ensures forall i :: |s| - k <= i < |s| ==> IsJsWhitespace(s[i])
    ensures k == |s| || !IsJsWhitespace(s[|s| - k - 1])
  {
    if s != [] && IsJsWhitespace(s[|s| - 1]) then
      var k := TrailingSpace(s[..|s| - 1]);
      assert forall i :: |s| - 1 - k <= i < |s| - 1 ==> s[i] == s[..|s| - 1][i];
      k + 1
    else 0
  }

  /** `s.trim()`: the middle of `s` between its leading and trailing whitespace. Only
    * whitespace is cut: the `LeadingSpace(s)` characters before the result and all
    * characters after it; and the result neither starts nor ends with whitespace. */
  function Trim(s: string): (r: string)
    ensures LeadingSpace(s) + |r| <= |s| && r == s[LeadingSpace(s)..LeadingSpace(s) + |r|]
    ensures forall i :: LeadingSpace(s) + |r| <= i < |s| ==> IsJsWhitespace(s[i])
    ensures r == [] || (!IsJsWhitespace(r[0]) && !IsJsWhitespace(r[|r| - 1]))
  {
    var k := LeadingSpace(s);
    if k == |s| then []
    else
      var n := |s| - TrailingSpace(s);
      // s[k] is not whitespace, so it lies before the trailing whitespace
      assert k < n;
      s[k..n]
  }

  /** A string trims to '' exactly when all of it is whitespace. */
  lemma {:induction false} TrimEmptyIffBlank(s: string)
    ensures Trim(s) == [] <==> forall i :: 0 <= i < |s| ==> IsJsWhitespace(s[i])
  {
  }

  /** Trimming twice is trimming once. */
  lemma TrimIdempotent(s: string)
    ensures Trim(Trim(s)) == Trim(s)
  {
    var r := Trim(s);
    if r != [] {
      assert LeadingSpace(r) == 0;
      assert TrailingSpace(r) == 0;
    }
  }

  /** `v?.trim() || ''` for an optional form field. */
  function TrimmedOrEmpty(v: Option<string>): (r: string)
    ensures v.Some? ==> r == Trim(v.value)
    ensures v.None? ==> r == ""
  {
    match v
    case None => ""
    case Some(s) => Trim(s)
  }

  /** The `data` of a successful reply. */
  datatype CreatedClass = CreatedClass(id: ObjectId, className: string, classCode: string)

  datatype CreateReply = Created(data: CreatedClass) | Refused(message: string) | Thrown(error: DbError)

  datatype Outcome = Outcome(reply: CreateReply, state: State)

  /** The document handed to `Class.create`. */
  function ClassDocument(className: string, section: Option<string>, subject: Option<string>,
                         classCode: string, creator: ObjectId): ClassInput {
    ClassInput(Some(Trim(className)), Some(TrimmedOrEmpty(section)), Some(TrimmedOrEmpty(subject)),
               Some(classCode), Some(creator), Some(""))
  }

  /** What the action does with the session's e-mail, the form's fields, the class
    * code it drew and the hash of its random placeholder password. */
  function CreateSpec(st: State, sessionEmail: Option<string>, className: Option<string>, section: Option<string>,
                      subject: Option<string>, classCode: string, hashedPlaceholder: string): Outcome
  {
    if !RequiredString(sessionEmail) then Outcome(Refused("Unauthorized"), st)
    else if className.None? || Trim(className.value) == "" then Outcome(Refused("Class name is required"), st)
    else
      match ResolveUser(st, sessionEmail.value, hashedPlaceholder)
      case Unresolved(e) => Outcome(Thrown(e), st)
      case Resolved(ui, st1) => CreateAs(st1, ui, ClassDocument(className.value, section, subject, classCode, st1.users[ui].id))
  }

  /** `Class.create` and the `$push`, once the creator (`users[ui]` of `st1`) is known. */
  function CreateAs(st1: State, ui: nat, input: ClassInput): Outcome
    requires ui < |st1.users|
  {
    match ClassCreate(st1, input)
    case Err(e) => Outcome(Thrown(e), st1)
    case Ok(c) => Outcome(Created(CreatedClass(c.id, c.className, c.classCode)), CreatedState(st1, c, st1.users[ui].id))
  }

  /** The state after a successful `Class.create` and the `$push` onto createdClasses. */
  function CreatedState(st1: State, c: Class, userId: ObjectId): State {
    var st2 := AddClass(st1, c);
    st2.(users := PushCreatedClass(st2.users, userId, c.id))
  }

  /** The action on the store. `classCode` is the code drawn with `Math.random`;
    * `placeholder` is the random password hashed for a user it has to create. */
  method Create(db: Database, sessionEmail: Option<string>, className: Option<string>, section: Option<string>,
                subject: Option<string>, classCode: string, placeholder: string, hash: Hasher)
    returns (reply: CreateReply)
    requires db.Valid()
    modifies db
    ensures db.Valid()
    ensures Outcome(reply, db.Snapshot())
            == CreateSpec(old(db.Snapshot()), sessionEmail, className, section, subject, classCode, hash(placeholder))
  {
    if !RequiredString(sessionEmail) {
      return Refused("Unauthorized");
    }
    if className.None? || Trim(className.value) == "" {
      return Refused("Class name is required");
    }
    var resolved := ResolveSessionUser(db, sessionEmail.value, hash(placeholder));
    if resolved.Err? {
      return Thrown(resolved.error);
    }
    var userId := db.users[resolved.value].id;
    reply := CreateAsUser(db, resolved.value, ClassDocument(className.value, section, subject, classCode, userId));
  }

  /** `Class.create` and the `$push` on the store, once the creator is `db.users[ui]`. */
  method CreateAsUser(db: Database, ui: nat, input: ClassInput) returns (reply: CreateReply)
    requires db.Valid() && ui < |db.users|
    modifies db
    ensures db.Valid()
    ensures Outcome(reply, db.Snapshot()) == CreateAs(old(db.Snapshot()), ui, input)
  {
    var userId := db.users[ui].id;
    var made := db.CreateClass(input);
    if made.Err? {
      return Thrown(made.error);
    }
    db.AppendCreatedClass(userId, made.value.id);
    reply := Created(CreatedClass(made.value.id, made.value.className, made.value.classCode));
  }

  lemma CreateKeepsIndexes(st: State, sessionEmail: Option<string>, className: Option<string>, section: Option<string>,
                           subject: Option<string>, classCode: string, hashedPlaceholder: string)
    requires Consistent(st)
    ensures Consistent(CreateSpec(st, sessionEmail, className, section, subject, classCode, hashedPlaceholder).state)
  {
    var o := CreateSpec(st, sessionEmail, className, section, subject, classCode, hashedPlaceholder);
    if RequiredString(sessionEmail) && className.Some? && Trim(className.value) != "" {
      var r := ResolveUser(st, sessionEmail.value, hashedPlaceholder);
      ResolveKeepsIndexes(st, sessionEmail.value, hashedPlaceholder);
      if r.Resolved? {
        var st1 := r.state;
        var input := ClassDocument(className.value, section, subject, classCode, st1.users[r.index].id);
        assert o == CreateAs(st1, r.index, input);
        if ClassCreate(st1, input).Ok? {
          var c := ClassCreate(st1, input).value;
          AddClassConsistent(st1, input);
          PushesConsistent(AddClass(st1, c), st1.users[r.index].id, c.id, c.id);
          assert o.state == CreatedState(st1, c, st1.users[r.index].id);
        }
      }
    }
  }

  /** A created class holds the trimmed name, section and subject, the drawn code,
    * the session's user as creator and an empty description; it is the one found by
    * that code, and the reply carries its id, name and code. */
  lemma {:induction false} CreatedAsSubmitted(st: State, sessionEmail: Option<string>, className: Option<string>,
                                              section: Option<string>, subject: Option<string>, classCode: string,
                                              hashedPlaceholder: string)
    ensures var o := CreateSpec(st, sessionEmail, className, section, subject, classCode, hashedPlaceholder);
      o.reply.Created? ==>
        && className.Some? && |o.state.classes| > 0
        && ClassWithCode(o.state.classes, classCode) == Some(|o.state.classes| - 1)
        && var c := o.state.classes[|o.state.classes| - 1];
           && o.reply.data == CreatedClass(c.id, Trim(className.value), classCode)
           && c.className == Trim(className.value) && c.className != ""
           && c.section == Some(TrimmedOrEmpty(section)) && c.subject == TrimmedOrEmpty(subject)
           && c.description == Some("") && c.materials == [] && c.enrollments == []
  {
    var o := CreateSpec(st, sessionEmail, className, section, subject, classCode, hashedPlaceholder);
    if o.reply.Created? {
      var r := ResolveUser(st, sessionEmail.value, hashedPlaceholder);
      assert r.Resolved?;
      var st1 := r.state;
      var input := ClassDocument(className.value, section, subject, classCode, st1.users[r.index].id);
      assert o == CreateAs(st1, r.index, input);
      CreateAsStores(st1, r.index, input);
    }
  }

  /** What a successful CreateAs stores: the validated document, last, and the one
    * found by its code. */
  lemma CreateAsStores(st1: State, ui: nat, input: ClassInput)
    requires ui < |st1.users| && CreateAs(st1, ui, input).reply.Created?
    ensures var o := CreateAs(st1, ui, input);
      && |o.state.classes| > 0 && input.classCode.Some?
      && ClassWithCode(o.state.classes, input.classCode.value) == Some(|o.state.classes| - 1)
      && var c := o.state.classes[|o.state.classes| - 1];
         && o.reply.data == CreatedClass(c.id, c.className, c.classCode)
         && Some(c.className) == input.className && Some(c.subject) == input.subject
         && Some(c.classCode) == input.classCode && c.section == input.section
         && c.description == input.description && c.materials == [] && c.enrollments == []
  {
    CreateAsCreated(st1, ui, input);
    var c := ClassCreate(st1, input).value;
    FoundAfterInsert(st1.classes, c, (c: Class) => c.classCode == input.classCode.value);
  }

  /** A successful CreateAs stored the validated class and pushed its id onto the
    * user's createdClasses, and nothing else. */
  lemma CreateAsCreated(st1: State, ui: nat, input: ClassInput)
    requires ui < |st1.users| && CreateAs(st1, ui, input).reply.Created?
    ensures var o := CreateAs(st1, ui, input);
      && ClassCreate(st1, input).Ok?
      && var c := ClassCreate(st1, input).value;
         && o.reply.data == CreatedClass(c.id, c.className, c.classCode)
         && o.state.classes == st1.classes + [c]
         && o.state.users == PushCreatedClass(st1.users, st1.users[ui].id, c.id)
  {
  }

  /** The created class's creator is the session's user, whose createdClasses is what
    * it was before (empty for a user created on the spot) plus the new class's id. */
  lemma {:induction false} CreatorRecordsClass(st: State, sessionEmail: Option<string>, className: Option<string>,
                                               section: Option<string>, subject: Option<string>, classCode: string,
                                               hashedPlaceholder: string)
    ensures var o := CreateSpec(st, sessionEmail, className, section, subject, classCode, hashedPlaceholder);
      o.reply.Created? ==>
        && sessionEmail.Some? && UserWithEmailIgnoringCase(o.state.users, sessionEmail.value).Some?
        && |o.state.classes| > 0
        && var c := o.state.classes[|o.state.classes| - 1];
           var user := o.state.users[UserWithEmailIgnoringCase(o.state.users, sessionEmail.value).value];
           && c.creator == user.id
           && user.createdClasses == (match UserWithEmailIgnoringCase(st.users, sessionEmail.value)
                                      case Some(i) => st.users[i].createdClasses
                                      case None => []) + [c.id]
  {
    var o := CreateSpec(st, sessionEmail, className, section, subject, classCode, hashedPlaceholder);
    if !o.reply.Created? { return; }
    var r := ResolveUser(st, sessionEmail.value, hashedPlaceholder);
    assert r.Resolved?;
    var st1 := r.state;
    var user := st1.users[r.index];
    var input := ClassDocument(className.value, section, subject, classCode, user.id);
    assert o == CreateAs(st1, r.index, input);
    CreateAsCreated(st1, r.index, input);
    var c := ClassCreate(st1, input).value;
    UserPushesKeepKeys(st1.users, user.id, c.id);
    ResolveAgain(st, sessionEmail.value, hashedPlaceholder, o.state.users);
    assert o.state.users[r.index].createdClasses == user.createdClasses + [c.id];
    ResolvedUserBefore(st, sessionEmail.value, hashedPlaceholder);
  }

  /** With no subject (or a blank one) the action still gets past the name check and
    * the user lookup, so a first-time user is created and kept while the class is
    * rejected by the schema's required validator. */
  lemma {:induction false} BlankSubjectKeepsNewUser(st: State, sessionEmail: Option<string>, className: Option<string>,
                                                    section: Option<string>, subject: Option<string>, classCode: string,
                                                    hashedPlaceholder: string)
    requires RequiredString(sessionEmail) && className.Some? && Trim(className.value) != ""
    requires subject.None? || forall i :: 0 <= i < |subject.value| ==> IsJsWhitespace(subject.value[i])
    requires UserWithEmailIgnoringCase(st.users, sessionEmail.value).None?
    requires UserCreate(st, AutoUserInput(sessionEmail.value, hashedPlaceholder)).Ok?
    ensures var o := CreateSpec(st, sessionEmail, className, section, subject, classCode, hashedPlaceholder);
      && o.reply.Thrown? && o.reply.error.ValidationError? && "subject" in o.reply.error.paths
      && |o.state.users| == |st.users| + 1 && o.state.users[|st.users|].email == sessionEmail.value
      && o.state.classes == st.classes
  {
    if subject.Some? {
      TrimEmptyIffBlank(subject.value);
    }
    var r := ResolveUser(st, sessionEmail.value, hashedPlaceholder);
    var input := ClassDocument(className.value, section, subject, classCode, r.state.users[r.index].id);
    EmptySubjectRejected(r.state.nextId, input);
  }

  /** Every reply but Created leaves classes and enrollments as they were; the users
    * are unchanged too, except for the one appended when the session's email had no
    * account yet. */
  lemma {:induction false} RefusalChangesOnlyUsers(st: State, sessionEmail: Option<string>, className: Option<string>,
                                                   section: Option<string>, subject: Option<string>, classCode: string,
                                                   hashedPlaceholder: string)
    ensures var o := CreateSpec(st, sessionEmail, className, section, subject, classCode, hashedPlaceholder);
      !o.reply.Created? ==>
        && o.state.classes == st.classes && o.state.enrollments == st.enrollments
        && (|| o.state.users == st.users
            || (&& sessionEmail.Some? && UserWithEmailIgnoringCase(st.users, sessionEmail.value).None?
                && |o.state.users| == |st.users| + 1 && o.state.users[..|st.users|] == st.users))
  {
    var o := CreateSpec(st, sessionEmail, className, section, subject, classCode, hashedPlaceholder);
    if RequiredString(sessionEmail) && className.Some? && Trim(className.value) != "" && !o.reply.Created? {
      ResolveUserCases(st, sessionEmail.value, hashedPlaceholder);
      var r := ResolveUser(st, sessionEmail.value, hashedPlaceholder);
      if r.Resolved? {
        assert o == CreateAs(r.state, r.index, ClassDocument(className.value, section, subject, classCode, r.state.users[r.index].id));
        CreateAsRefusalKeeps(r.state, r.index, ClassDocument(className.value, section, subject, classCode, r.state.users[r.index].id));
        if UserWithEmailIgnoringCase(st.users, sessionEmail.value).None? {
          assert r.state.users[..|st.users|] == st.users;
        }
      }
    }
  }

  /** Once the creator is known, a thrown `Class.create` changes nothing. */
  lemma CreateAsRefusalKeeps(st1: State, ui: nat, input: ClassInput)
    requires ui < |st1.users| && !CreateAs(st1, ui, input).reply.Created?
    ensures CreateAs(st1, ui, input).state == st1
  {
  }
}
