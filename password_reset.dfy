/** app/api/auth/password-reset/route.js: the three-step OTP password reset
  * (send-otp, verify-otp, reset-password) as a state machine on a user's
  * `passwordResetToken` and `passwordResetExpires`. */
module PasswordReset {
  import opened Wrappers
  import opened SchemaTypes
  import opened UserModel
  import opened Store
  import opened Bcrypt
  import opened Digits
  import opened Otp

  /** An HTTP reply: status code and the `message` or `error` text of its body. */
  datatype Reply = Reply(status: int, text: string)

  const UserNotFound := Reply(404, "User not found")
  const OtpSent := Reply(200, "OTP sent successfully")
  const OtpExpired := Reply(400, "OTP expired")
  const InvalidOtp := Reply(400, "Invalid OTP")
  const OtpVerified := Reply(200, "OTP verified successfully")
  const PasswordWasReset := Reply(200, "Password reset successfully")
  const InvalidAction := Reply(400, "Invalid action")
  const InternalError := Reply(500, "Internal Server Error")

  /** `10 * 60 * 1000`: an OTP is valid for ten minutes. */
  const OtpLifetimeMillis: int := 600000

  datatype Outcome = Outcome(reply: Reply, state: State)

  /** `expires < new Date()`: JavaScript compares a `null` expiry as 0. */
  predicate ExpiredAt(expires: Option<Millis>, now: Millis) {
    expires.GetOr(0) < now
  }

  /** The user record after send-otp stored `otp` at time `now`. */
  function WithOtp(u: User, otp: string, now: Millis, hash: Hasher): (v: User)
    ensures v.passwordResetToken == Some(hash(otp))
    ensures v.passwordResetExpires == Some(now + OtpLifetimeMillis)
    ensures v == u.(passwordResetToken := v.passwordResetToken, passwordResetExpires := v.passwordResetExpires)
  {
    u.(passwordResetToken := Some(hash(otp)), passwordResetExpires := Some(now + OtpLifetimeMillis))
  }

  /** The user record after reset-password set `newPassword`. */
  function WithPassword(u: User, newPassword: string, hash: Hasher): (v: User)
    ensures v.password == hash(newPassword)
    ensures v.passwordResetToken.None? && v.passwordResetExpires.None?
    ensures v == u.(password := v.password, passwordResetToken := None, passwordResetExpires := None)
  {
    u.(password := hash(newPassword), passwordResetToken := None, passwordResetExpires := None)
  }

  /** send-otp with the drawn `otp`: the token and expiry are saved before the mail
    * goes out, so a failed delivery still leaves them stored but answers 500. */
  function SendOtpSpec(st: State, email: string, otp: string, now: Millis, mailDelivered: bool, hash: Hasher)
    : (o: Outcome)
    ensures UserWithEmail(st.users, email).None? ==> o == Outcome(UserNotFound, st)
    ensures UserWithEmail(st.users, email).Some? ==>
              var i := UserWithEmail(st.users, email).value;
              o.state == st.(users := st.users[i := WithOtp(st.users[i], otp, now, hash)])
              && o.reply == (if mailDelivered then OtpSent else InternalError)
  {
    match UserWithEmail(st.users, email)
    case None => Outcome(UserNotFound, st)
    case Some(i) =>
      Outcome(if mailDelivered then OtpSent else InternalError,
              st.(users := st.users[i := WithOtp(st.users[i], otp, now, hash)]))
  }

  /** verify-otp: the expiry is checked first, then the OTP; nothing is written. */
  function VerifyOtpSpec(st: State, email: string, otp: Option<string>, now: Millis, hash: Hasher): (r: Reply)
    ensures UserWithEmail(st.users, email).None? <==> r == UserNotFound
    ensures UserWithEmail(st.users, email).Some? ==>
              var u := st.users[UserWithEmail(st.users, email).value];
              && (r == OtpExpired <==> ExpiredAt(u.passwordResetExpires, now))
              && (r == OtpVerified <==> !ExpiredAt(u.passwordResetExpires, now)
                                        && Compare(otp, u.passwordResetToken, hash) == Some(true))
              && (r == InternalError <==> !ExpiredAt(u.passwordResetExpires, now)
                                          && Compare(otp, u.passwordResetToken, hash).None?)
  {
    match UserWithEmail(st.users, email)
    case None => UserNotFound
    case Some(i) =>
      var u := st.users[i];
      if ExpiredAt(u.passwordResetExpires, now) then OtpExpired
      else match Compare(otp, u.passwordResetToken, hash)
        case None => InternalError
        case Some(valid) => if valid then OtpVerified else InvalidOtp
  }

  /** reset-password: the OTP must match the stored token; its expiry is not checked.
    * A missing new password makes `bcrypt.hash` throw before anything is saved. */
  function ResetPasswordSpec(st: State, email: string, otp: Option<string>, newPassword: Option<string>,
                             hash: Hasher): (o: Outcome)
    ensures o.reply != PasswordWasReset ==> o.state == st
    ensures UserWithEmail(st.users, email).None? <==> o.reply == UserNotFound
    ensures UserWithEmail(st.users, email).Some? ==>
              var i := UserWithEmail(st.users, email).value;
              var c := Compare(otp, st.users[i].passwordResetToken, hash);
              && (o.reply == PasswordWasReset <==> c == Some(true) && newPassword.Some?)
              && (o.reply == InvalidOtp <==> c == Some(false))
              && (o.reply == InternalError <==> c.None? || (c == Some(true) && newPassword.None?))
              && (o.reply == PasswordWasReset ==>
                    o.state == st.(users := st.users[i := WithPassword(st.users[i], newPassword.value, hash)]))
  {
    match UserWithEmail(st.users, email)
    case None => Outcome(UserNotFound, st)
    case Some(i) =>
      var u := st.users[i];
      match Compare(otp, u.passwordResetToken, hash)
      case None => Outcome(InternalError, st)
      case Some(valid) =>
        if !valid then Outcome(InvalidOtp, st)
        else if newPassword.None? then Outcome(InternalError, st)
        else Outcome(PasswordWasReset, st.(users := st.users[i := WithPassword(u, newPassword.value, hash)]))
  }

  /** The whole route: dispatch on `action`; `otp` is the value send-otp would draw. */
  function PostSpec(st: State, action: string, email: string, otp: Option<string>, newPassword: Option<string>,
                    drawn: string, now: Millis, mailDelivered: bool, hash: Hasher): (o: Outcome)
    ensures action !in {"send-otp", "verify-otp", "reset-password"} ==> o == Outcome(InvalidAction, st)
    ensures action == "verify-otp" ==> o.state == st
  {
    if action == "send-otp" then SendOtpSpec(st, email, drawn, now, mailDelivered, hash)
    else if action == "verify-otp" then Outcome(VerifyOtpSpec(st, email, otp, now, hash), st)
    else if action == "reset-password" then ResetPasswordSpec(st, email, otp, newPassword, hash)
    else Outcome(InvalidAction, st)
  }

  lemma SaveKeepsIndexes(st: State, i: nat, v: User)
    requires Consistent(st) && i < |st.users|
    requires v.id == st.users[i].id && v.email == st.users[i].email && v.collegeId == st.users[i].collegeId
    ensures Consistent(st.(users := st.users[i := v]))
  {
    var users := st.users[i := v];
    assert forall j :: 0 <= j < |users| ==>
      users[j].id == st.users[j].id && users[j].email == st.users[j].email
      && users[j].collegeId == st.users[j].collegeId;
  }

  // ---------------------------------------------------------------------------
  // The route as it runs against the store.

  method SendOtp(db: Database, email: string, now: Millis, mailDelivered: bool, hash: Hasher)
    returns (reply: Reply, mailed: Option<string>)
    requires db.Valid()
    modifies db
    ensures db.Valid()
    ensures mailed.Some? ==> IsOtp(mailed.value)
    ensures mailed.None? <==> UserWithEmail(old(db.users), email).None?
    ensures mailed.Some? ==> Outcome(reply, db.Snapshot()) == SendOtpSpec(old(db.Snapshot()), email, mailed.value, now, mailDelivered, hash)
    ensures mailed.None? ==> reply == UserNotFound && db.Snapshot() == old(db.Snapshot())
  {
    var found := UserWithEmail(db.users, email);
    if found.None? {
      return UserNotFound, None;
    }
    var i := found.value;
    var otp := GenerateOtp();
    var user := db.users[i];
    user := user.(passwordResetToken := Some(hash(otp)));
    user := user.(passwordResetExpires := Some(now + OtpLifetimeMillis));
    db.SaveUser(i, user);
    mailed := Some(otp);
    reply := if mailDelivered then OtpSent else InternalError;
  }

  method VerifyOtp(db: Database, email: string, otp: Option<string>, now: Millis, hash: Hasher)
    returns (reply: Reply)
    requires db.Valid()
    ensures reply == VerifyOtpSpec(db.Snapshot(), email, otp, now, hash)
  {
    var found := UserWithEmail(db.users, email);
    if found.None? {
      return UserNotFound;
    }
    var user := db.users[found.value];
    if user.passwordResetExpires.GetOr(0) < now {
      return OtpExpired;
    }
    var valid := Compare(otp, user.passwordResetToken, hash);
    if valid.None? {
      return InternalError;
    }
    if !valid.value {
      return InvalidOtp;
    }
    reply := OtpVerified;
  }

  method ResetPassword(db: Database, email: string, otp: Option<string>, newPassword: Option<string>, hash: Hasher)
    returns (reply: Reply)
    requires db.Valid()
    modifies db
    ensures db.Valid()
    ensures Outcome(reply, db.Snapshot()) == ResetPasswordSpec(old(db.Snapshot()), email, otp, newPassword, hash)
  {
    var found := UserWithEmail(db.users, email);
    if found.None? {
      return UserNotFound;
    }
    var i := found.value;
    var user := db.users[i];
    var valid := Compare(otp, user.passwordResetToken, hash);
    if valid.None? {
      return InternalError;
    }
    if !valid.value {
      return InvalidOtp;
    }
    if newPassword.None? {
      return InternalError;
    }
    user := user.(password := hash(newPassword.value));
    user := user.(passwordResetToken := None);
    user := user.(passwordResetExpires := None);
    db.SaveUser(i, user);
    reply := PasswordWasReset;
  }

  method Post(db: Database, action: string, email: string, otp: Option<string>, newPassword: Option<string>,
              now: Millis, mailDelivered: bool, hash: Hasher)
    returns (reply: Reply)
    requires db.Valid()
    modifies db
    ensures db.Valid()
    ensures exists drawn :: (IsOtp(drawn) &&
      Outcome(reply, db.Snapshot()) == PostSpec(old(db.Snapshot()), action, email, otp, newPassword, drawn, now, mailDelivered, hash))
  {
    OtpOfDraw(OtpMin);
    ghost var drawn := DecimalString(OtpMin);
    if action == "send-otp" {
      var mailed;
      reply, mailed := SendOtp(db, email, now, mailDelivered, hash);
      if mailed.Some? { drawn := mailed.value; }
    } else if action == "verify-otp" {
      reply := VerifyOtp(db, email, otp, now, hash);
    } else if action == "reset-password" {
      reply := ResetPassword(db, email, otp, newPassword, hash);
    } else {
      reply := InvalidAction;
    }
    assert IsOtp(drawn);
  }

  // ---------------------------------------------------------------------------
  // Properties of the state machine.

  /** An address with no user gets 404 from every action and changes nothing. */
  lemma UnknownEmailChangesNothing(st: State, action: string, email: string, otp: Option<string>,
                                   newPassword: Option<string>, drawn: string, now: Millis,
                                   mailDelivered: bool, hash: Hasher)
    requires UserWithEmail(st.users, email).None?
    ensures var o := PostSpec(st, action, email, otp, newPassword, drawn, now, mailDelivered, hash);
            o.state == st && (action in {"send-otp", "verify-otp", "reset-password"} ==> o.reply == UserNotFound)
  {
  }

  /** The OTP just sent verifies until ten minutes have passed, and is reported
    * expired (not invalid) afterwards. */
  lemma {:induction false} SentOtpVerifiesUntilExpiry(st: State, email: string, otp: string, sentAt: Millis,
                                                      now: Millis, mailDelivered: bool, hash: Hasher)
    requires Consistent(st) && UserWithEmail(st.users, email).Some?
    ensures var after := SendOtpSpec(st, email, otp, sentAt, mailDelivered, hash).state;
            && (now <= sentAt + OtpLifetimeMillis ==> VerifyOtpSpec(after, email, Some(otp), now, hash) == OtpVerified)
            && (now > sentAt + OtpLifetimeMillis ==> VerifyOtpSpec(after, email, Some(otp), now, hash) == OtpExpired)
  {
    var i := UserWithEmail(st.users, email).value;
    var after := SendOtpSpec(st, email, otp, sentAt, mailDelivered, hash).state;
    SameLookupAfterSave(st, i, WithOtp(st.users[i], otp, sentAt, hash), email);
  }

  /** A different OTP, one whose hash is not the stored token, is rejected as invalid
    * while the sent one is still fresh. */
  lemma {:induction false} WrongOtpRejected(st: State, email: string, otp: string, guess: string, sentAt: Millis,
                                            now: Millis, mailDelivered: bool, hash: Hasher)
    requires Consistent(st) && UserWithEmail(st.users, email).Some?
    requires hash(guess) != hash(otp) && now <= sentAt + OtpLifetimeMillis
    ensures var after := SendOtpSpec(st, email, otp, sentAt, mailDelivered, hash).state;
            VerifyOtpSpec(after, email, Some(guess), now, hash) == InvalidOtp
  {
    var i := UserWithEmail(st.users, email).value;
    SameLookupAfterSave(st, i, WithOtp(st.users[i], otp, sentAt, hash), email);
  }

  /** reset-password accepts the sent OTP at any later time: it never looks at the
    * expiry. The new password is stored hashed and the reset fields are cleared. */
  lemma {:induction false} ResetIgnoresExpiry(st: State, email: string, otp: string, sentAt: Millis,
                                              mailDelivered: bool, newPassword: string, hash: Hasher)
    requires Consistent(st) && UserWithEmail(st.users, email).Some?
    ensures var after := SendOtpSpec(st, email, otp, sentAt, mailDelivered, hash).state;
            var o := ResetPasswordSpec(after, email, Some(otp), Some(newPassword), hash);
            var i := UserWithEmail(st.users, email).value;
            && o.reply == PasswordWasReset
            && o.state.users[i].password == hash(newPassword)
            && o.state.users[i].passwordResetToken.None? && o.state.users[i].passwordResetExpires.None?
  {
    var i := UserWithEmail(st.users, email).value;
    SameLookupAfterSave(st, i, WithOtp(st.users[i], otp, sentAt, hash), email);
  }

  /** After a successful reset the token is null: a second reset-password makes
    * `bcrypt.compare` throw (500), and verify-otp reports the null expiry as expired. */
  lemma {:induction false} ResetIsSingleUse(st: State, email: string, otp: Option<string>, again: Option<string>,
                                            newPassword: Option<string>, password2: Option<string>,
                                            now: Millis, hash: Hasher)
    requires Consistent(st) && now > 0
    requires ResetPasswordSpec(st, email, otp, newPassword, hash).reply == PasswordWasReset
    ensures var after := ResetPasswordSpec(st, email, otp, newPassword, hash).state;
            && ResetPasswordSpec(after, email, again, password2, hash).reply == InternalError
            && VerifyOtpSpec(after, email, again, now, hash) == OtpExpired
  {
    var i := UserWithEmail(st.users, email).value;
    SameLookupAfterSave(st, i, WithPassword(st.users[i], newPassword.value, hash), email);
  }

  /** Saving a user's reset fields does not change which document `findOne({ email })`
    * returns. */
  lemma SameLookupAfterSave(st: State, i: nat, v: User, email: string)
    requires Consistent(st) && UserWithEmail(st.users, email) == Some(i)
    requires v.email == st.users[i].email
    ensures UserWithEmail(st.users[i := v], email) == Some(i)
  {
    var users := st.users[i := v];
    assert ((u: User) => u.email == email)(users[i]);
    assert forall j :: 0 <= j < i ==> users[j] == st.users[j];
  }
}
