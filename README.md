# AttendEase core: accounts, classes, enrollments and the attendance export

This Dafny project models the request handlers and data rules that AttendEase, a
classroom-attendance web application, uses to create accounts, reset passwords,
create and join classes, and export a class's attendance history. It also proves
properties of that model:

- **The store.** The MongoDB collections (users, classes, enrollments) are the
  class `Store.Database`. It holds three `seq` fields and an id allocator. Its
  invariant `Valid()` is the set of unique indexes the schemas declare: user
  email, user collegeId, class code, and the (student, class) pair of an
  enrollment. `Database.CreateUser`, `CreateClass` and `CreateEnrollment` are
  `Model.create`. Each runs the schema's validators and then fails with a
  duplicate-key error exactly where MongoDB would. The `Append…` methods are
  the `$push` updates, and `SaveUser` is `document.save()`.
- **Schemas.** Each Mongoose schema (user, class, enrollment, attendance
  session, attendance record, attendance key) is a datatype. A constructor
  function checks the `required` and `enum` validators and fills in the
  defaults.
- **Request handlers.** Registration, the three password-reset actions, and the
  `createClass` / `joinClass` server actions are each a pure function from the
  store's state to an `Outcome` (reply and new state). Each has a method on
  `Database` whose contract equates its reply and new state with that function.
  The lemmas are stated about the functions: indexes kept, rejection order, what
  a success stores, what a second attempt answers.
- **Attendance history.** `prepareExportData` is the method
  `AttendanceHistory.PrepareExportData`:
  - It sorts the caller's array of sessions in place.
  - It collects each distinct student once, splits the college ids into
    all-digit and other ids, and sorts each list.
  - It builds one row per student, with a 0/1 mark under each session's date.

  The local update after an attendance edit (`sessions.map` in
  `updateAttendance`) is the function `AttendanceHistory.UpdateLocal` with its
  lemmas.
- **OTPs.** The 6-digit OTP generator is `Otp.GenerateOtp`.

Parameters stand for what the program takes from outside:

| parameter | stands for |
|---|---|
| `hash: string -> string` | bcrypt's hash, an opaque deterministic function; `compare` is equality of hashes |
| `now` | `Date.now()` |
| the drawn OTP | `crypto.randomInt` |
| `classCode`, `placeholder` | `Math.random` |
| `mailDelivered` | whether `sendOTPEmail` succeeded |
| `dayKey` | `toLocaleDateString('en-GB')` |
| `alphaOrder` | `localeCompare`, assumed to be a total preorder |

The session's email is an `Option<string>`. `None` or the empty string is the
"no session" case.

Where the code departs from the application's intended behaviour, the model
follows the code:

- The application is meant to have one current attendance key per class. The
  key schema only makes each key eligible for removal 30 seconds after it is
  created (MongoDB's TTL monitor deletes it later, about once a minute). So two
  keys inserted within 30 seconds of each other are both live. This is stated
  in `AttendanceKeyModel.KeysCoexist`.
- A student is meant to be marked at most once per session. The session
  schema's attendee array does not enforce it. This is stated in
  `AttendanceModel.DuplicateAttendeeAccepted`.
- `createClass` is meant to be a plain insert. As written, a missing or
  blank subject is stored as `''`, which the schema's `required` validator
  rejects. By then the user lookup has already auto-created a first-time user,
  and that user is kept. This is stated in `CreateClass.BlankSubjectKeepsNewUser`.

## Model

| member | source | states |
|---|---|---|
| Store.UserCreate | lib/models/user.model.js:3-17 | `User.create` succeeds iff the schema validates and neither the email nor the collegeId is taken; a validation failure comes first |
| Store.ClassCreate | lib/models/class.model.js:15-19 | `Class.create` succeeds iff the schema validates and the class code is not taken |
| Store.EnrollmentCreate | lib/models/enrollment.model.js:28-29 | `Enrollment.create` succeeds iff the schema validates and the (student, class) pair is new |
| Store.AddUserConsistent | lib/models/user.model.js:4-17 | inserting a user that `UserCreate` accepted keeps the email and collegeId indexes unique |
| Store.AddClassConsistent | lib/models/class.model.js:15-19 | inserting an accepted class keeps class codes unique |
| Store.AddEnrollmentConsistent | lib/models/enrollment.model.js:28-29 | inserting an accepted enrollment keeps one enrollment per (student, class) pair |
| Store.PushesConsistent | actions/join-class.js:77-85 | the `$push` updates on enrolledIn, createdClasses and a class's enrollments keep every unique index |
| Store.PushEnrolledIn | actions/join-class.js:82-85 | `$push` onto enrolledIn: every user with the given `_id` gets the old list plus the enrollment id; every other user, and every other field, is unchanged |
| Store.PushCreatedClass | actions/create-class.js:68-71 | `$push` onto createdClasses: every user with the given `_id` gets the old list plus the class id; every other user, and every other field, is unchanged |
| Store.PushClassEnrollment | actions/join-class.js:77-80 | `$push` onto a class's enrollments: every class with the given `_id` gets the old list plus the enrollment id; every other class, and every other field, is unchanged |
| Store.UserPushesKeepKeys | actions/create-class.js:68-71 | both `$push` updates on users leave every `_id` and email in place |
| Store.ExactMatchFoundIgnoringCase | actions/join-class.js:27-29 | under the modelled case-insensitive equality, when no email matches case-insensitively none matches exactly (the code's unescaped regular expression does not keep this; see Left out) |
| Store.Database.CreateUser | app/api/auth/register/route.js:54-58 | returns `UserCreate`'s result; the store gains the user exactly on success; unique indexes hold |
| Store.Database.CreateClass | actions/create-class.js:57-66 | returns `ClassCreate`'s result; the store gains the class exactly on success; unique indexes hold |
| Store.Database.CreateEnrollment | actions/join-class.js:70-75 | returns `EnrollmentCreate`'s result; the store gains the enrollment exactly on success; unique indexes hold |
| Store.Database.AppendEnrolledIn | actions/join-class.js:83-85 | the new store is the old one with the id pushed onto that user's enrolledIn; indexes hold |
| Store.Database.AppendCreatedClass | actions/create-class.js:69-71 | the new store is the old one with the id pushed onto that user's createdClasses; indexes hold |
| Store.Database.AppendClassEnrollment | actions/join-class.js:78-80 | the new store is the old one with the id pushed onto that class's enrollments; indexes hold |
| Store.Database.SaveUser | app/api/auth/password-reset/route.js:24 | saving a document with unchanged `_id`, email and collegeId replaces it and keeps the indexes |
| Finds.FirstIndex | components/classes/AttendanceHistory.jsx:202-204 | `find`/`findOne`: the index of the first match, None exactly when nothing matches |
| Finds.FoundAfterInsert | actions/create-class.js:57-66 | a lookup that found nothing finds an appended matching document at the end |
| UserModel.NewUser | lib/models/user.model.js:3-42 | a user validates iff email, password and collegeId are present and non-empty; the defaults are a null reset token and expiry, zero stats and empty lists |
| ClassModel.NewClass | lib/models/class.model.js:3-43 | a class validates iff className, subject and classCode are non-empty and a creator is given; the fields are stored as given, with empty materials and enrollments |
| ClassModel.NewMaterial | lib/models/class.model.js:28-36 | a material keeps its title, description and URL; uploadedAt defaults to now |
| ClassModel.EmptySubjectRejected | lib/models/class.model.js:11-14 | an empty subject fails the `required` validator on the subject path |
| EnrollmentModel.ParseStatus | lib/models/enrollment.model.js:14-18 | the status is accepted iff absent or one of active, inactive, pending; absent means active |
| EnrollmentModel.ParseRole | lib/models/enrollment.model.js:19-23 | the role is accepted iff absent or one of student, teacher; absent means student |
| EnrollmentModel.NewEnrollment | lib/models/enrollment.model.js:3-26 | an enrollment validates iff student and class are given and status and role pass their enums; the stored values are the parsed ones |
| AttendanceModel.ParseSessionStatus | lib/models/attendance.model.js:39-43 | the status is accepted iff absent, active or completed; absent means active |
| AttendanceModel.NewSession | lib/models/attendance.model.js:3-67 | a session validates iff class, creator, endTime and coordinates are given and the enums pass; startTime defaults to now and radius to 100; the stored status is the given one, or 'active' when none is given; attendees start empty |
| AttendanceModel.NewAttendee | lib/models/attendance.model.js:44-64 | an attendee entry validates iff its coordinates are given; markedAt defaults to now |
| AttendanceModel.DuplicateAttendeeAccepted | lib/models/attendance.model.js:44-64 | the schema accepts a second entry for the same student: nothing in it prevents a double mark |
| AttendanceRecordModel.NewRecord | lib/models/attendanceRecord.model.js:3-29 | a record validates iff class, student and session are given; isPresent defaults to false and markedAt to now |
| AttendanceRecordModel.InsertRecord | lib/models/attendanceRecord.model.js:31-34 | an insert succeeds iff the record validates, and then appends it |
| AttendanceKeyModel.NewKey | lib/models/AttendanceKey.model.js:3-17 | a key validates iff classId and key are non-empty; createdAt defaults to now |
| AttendanceKeyModel.LiveKeys | lib/models/AttendanceKey.model.js:12-16 | the keys of a class not yet eligible for removal are exactly its keys younger than the 30-second TTL |
| AttendanceKeyModel.InsertKey | lib/models/AttendanceKey.model.js:19-20 | an insert succeeds iff the key validates, and then appends it |
| AttendanceKeyModel.KeysCoexist | lib/models/AttendanceKey.model.js:12-16 | two keys for one class inserted within 30 seconds are both live: the TTL alone does not leave one current key |
| Bcrypt.Compare | app/api/auth/password-reset/route.js:43 | `bcrypt.compare` throws (None) iff either argument is null, and is true iff the stored hash is the hash of the data |
| CollegeIds.CollegeIdOf | app/api/auth/register/route.js:22 | `email.split('@')[0]` is the longest '@'-free prefix of the email |
| CollegeIds.EmptyCollegeId | app/api/auth/register/route.js:25-30 | the college id is empty iff the email is empty or starts with '@' |
| Digits.DecimalRoundTrip | lib/passwordReset.js:6 | reading back a number's decimal `toString` gives the number |
| Digits.DecimalStringShape | lib/passwordReset.js:6 | `toString` of n is all digits and has `DigitCount(n)` of them |
| Digits.DigitCountRange | lib/passwordReset.js:6 | a number in [10^(k-1), 10^k) has k digits |
| Digits.LeadingDigit | lib/passwordReset.js:6 | `toString` of a positive number has no leading zero |
| Otp.OtpOfDraw | lib/passwordReset.js:5-7 | every draw of `randomInt(100000, 999999)` prints as a 6-digit OTP that reads back as the draw |
| Otp.NeverAllNines | lib/passwordReset.js:6 | the exclusive upper bound means "999999" is never an OTP |
| Otp.GenerateOtp | lib/passwordReset.js:5-7 | the OTP has 6 digits, no leading zero, and is not 999999 |
| PasswordReset.WithOtp | app/api/auth/password-reset/route.js:19-24 | only the reset token (the hash of the OTP) and the expiry (now + 10 minutes) change |
| PasswordReset.WithPassword | app/api/auth/password-reset/route.js:62-66 | the password becomes the hash of the new password; token and expiry are cleared; nothing else changes |
| PasswordReset.SendOtpSpec | app/api/auth/password-reset/route.js:13-29 | unknown email: 404 and no change; otherwise the user's token and expiry are set, and the reply is success iff the mail went out |
| PasswordReset.VerifyOtpSpec | app/api/auth/password-reset/route.js:31-48 | unknown email iff 404; expired iff the expiry is past; verified iff not expired and the OTP's hash matches; internal error iff a null reaches compare |
| PasswordReset.ResetPasswordSpec | app/api/auth/password-reset/route.js:50-68 | only a success changes the store; 404 iff the email is unknown; for a known email: success iff the OTP matches and a new password is given, and then only that user's password, token and expiry change; "Invalid OTP" iff the comparison says no; the 500 reply iff the comparison throws, or it matches and there is no new password to hash |
| PasswordReset.PostSpec | app/api/auth/password-reset/route.js:7-77 | an unknown action is a 400 with no change; verify-otp never changes the store |
| PasswordReset.SaveKeepsIndexes | app/api/auth/password-reset/route.js:24 | saving a user with the same keys keeps the store consistent |
| PasswordReset.SendOtp | app/api/auth/password-reset/route.js:13-29 | an OTP is drawn iff the email is known; the drawn OTP is 6 digits; reply and store are `SendOtpSpec`'s |
| PasswordReset.VerifyOtp | app/api/auth/password-reset/route.js:31-48 | the reply is `VerifyOtpSpec`'s and the store is not modified |
| PasswordReset.ResetPassword | app/api/auth/password-reset/route.js:50-68 | reply and new store are `ResetPasswordSpec`'s; indexes hold |
| PasswordReset.Post | app/api/auth/password-reset/route.js:7-77 | reply and new store are `PostSpec`'s for some valid 6-digit OTP draw; indexes hold |
| PasswordReset.UnknownEmailChangesNothing | app/api/auth/password-reset/route.js:14-16 | for an email with no account every action leaves the store unchanged, and the three known actions answer 404 |
| PasswordReset.SentOtpVerifiesUntilExpiry | app/api/auth/password-reset/route.js:22-48 | after send-otp, the same OTP verifies up to 10 minutes later and is reported expired afterwards |
| PasswordReset.WrongOtpRejected | app/api/auth/password-reset/route.js:43-46 | within the 10 minutes, an OTP whose hash differs is rejected as invalid |
| PasswordReset.ResetIgnoresExpiry | app/api/auth/password-reset/route.js:50-66 | reset-password accepts the sent OTP however late, since it does not check the expiry |
| PasswordReset.ResetIsSingleUse | app/api/auth/password-reset/route.js:57-66 | after a reset, any further reset throws (null token reaches compare) and verify-otp reports expired |
| PasswordReset.SameLookupAfterSave | app/api/auth/password-reset/route.js:24 | saving a user with the same email keeps it the one `findOne({ email })` returns |
| Register.DuplicateKeyMessage | app/api/auth/register/route.js:79-86 | an E11000 on email answers "Email already exists", on anything else "College ID already exists" |
| Register.RegisterSpec | app/api/auth/register/route.js:6-93 | the store changes iff the reply is 201 Created |
| Register.Post | app/api/auth/register/route.js:6-94 | reply and new store are `RegisterSpec`'s; indexes hold |
| Register.RejectionOrder | app/api/auth/register/route.js:14-48 | missing fields, then an empty college id, then a taken email, then a taken college id, each with its own 400 message |
| Register.SuccessfulRegistration | app/api/auth/register/route.js:50-75 | with a fresh email and college id the user is stored with the hashed password and derived college id, and the reply omits the password |
| Register.RegisterTwice | app/api/auth/register/route.js:33-39 | registering the same email again answers "Email already registered" and changes nothing |
| Register.RegisterKeepsIndexes | app/api/auth/register/route.js:54-58 | any registration outcome keeps the unique indexes |
| SessionUsers.ResolveUser | actions/join-class.js:26-46 | a resolved user's email equals the session's email ignoring case |
| SessionUsers.ResolveUserCases | actions/join-class.js:27-46 | an existing account is used and nothing changes; otherwise an account is created from the email, and creation errors are passed on |
| SessionUsers.ResolvedUserBefore | actions/join-class.js:27-46 | the user the action goes on with is the stored one the lookup found, or a new one with empty enrolledIn and createdClasses; classes are untouched |
| SessionUsers.ResolveSessionUser | actions/join-class.js:26-46 | the method returns the index and store `ResolveUser` gives, or its error with the store unchanged |
| SessionUsers.AutoCreateSucceeds | actions/join-class.js:31-42 | with a free email and college id, the new user has the placeholder hash, the college id before '@' and empty lists |
| SessionUsers.ResolveKeepsIndexes | actions/join-class.js:36-42 | resolving the session's user keeps the unique indexes |
| SessionUsers.ResolveAgain | actions/create-class.js:32-34 | after updates that keep emails, the same case-insensitive lookup finds the resolved user again |
| JoinClass.Join | actions/join-class.js:13-107 | reply and new store are `JoinSpec`'s; indexes hold |
| JoinClass.JoinAsUser | actions/join-class.js:48-101 | after the user is known: invalid code, own class, already enrolled, then create and push |
| JoinClass.JoinAsJoined | actions/join-class.js:48-85 | a join succeeds only for an existing class the user did not create and is not enrolled in |
| JoinClass.JoinedStateConsistent | actions/join-class.js:69-85 | the enrollment insert and both `$push` updates keep the indexes |
| JoinClass.JoinKeepsIndexes | actions/join-class.js:13-107 | every outcome of joinClass keeps the unique indexes |
| JoinClass.JoinedAsActiveStudent | actions/join-class.js:69-101 | a join stores an active student enrollment of the session's user in the coded class, as the last enrollment; the user's enrolledIn is its list before (empty for a user created on the spot) plus the enrollment id, and the class's enrollments are its list before plus the enrollment id |
| JoinClass.JoinTwiceRefused | actions/join-class.js:59-67 | joining the same class again is refused as already enrolled, with no change |
| JoinClass.InvalidCodeKeepsNewUser | actions/join-class.js:31-52 | an unknown code is refused after a first-time user was created, and that user stays |
| JoinClass.CreatorRefused | actions/join-class.js:54-57 | the class's creator is refused and nothing changes |
| JoinClass.RefusalChangesOnlyUsers | actions/join-class.js:17-67 | any reply but success leaves classes and enrollments alone and at most appends the auto-created user |
| JoinClass.JoinAsRefusalKeeps | actions/join-class.js:48-67 | once the user is known, a refusal or a thrown error changes nothing |
| CreateClass.LeadingSpace | actions/create-class.js:58 | the count of leading whitespace characters: all of them are whitespace and the next is not |
| CreateClass.TrailingSpace | actions/create-class.js:58 | the count of trailing whitespace characters: all of them are whitespace and the one before is not |
| CreateClass.Trim | actions/create-class.js:27 | `trim()` gives the substring that starts after the leading whitespace and is followed only by whitespace; it has no whitespace at either end |
| CreateClass.TrimEmptyIffBlank | actions/create-class.js:27-29 | the trimmed name is empty iff every character is JavaScript whitespace |
| CreateClass.TrimIdempotent | actions/create-class.js:58-60 | trimming twice is trimming once |
| CreateClass.TrimmedOrEmpty | actions/create-class.js:59-60 | `v?.trim() \|\| ''` is the trimmed value, or '' when absent |
| CreateClass.Create | actions/create-class.js:11-90 | reply and new store are `CreateSpec`'s; indexes hold |
| CreateClass.CreateAsUser | actions/create-class.js:56-81 | once the creator is known: `Class.create`, the `$push`, and the reply |
| CreateClass.CreateAsCreated | actions/create-class.js:57-71 | a success inserts the validated class and pushes its id onto the creator's createdClasses |
| CreateClass.CreateAsStores | actions/create-class.js:57-81 | the created class is last, found by its code, stored as submitted, and the reply carries its id, name and code |
| CreateClass.CreateKeepsIndexes | actions/create-class.js:11-90 | every outcome of createClass keeps the unique indexes |
| CreateClass.CreatedAsSubmitted | actions/create-class.js:57-81 | the new class has the trimmed, non-empty name, trimmed section and subject, the code and an empty description, and is the one its code finds |
| CreateClass.CreatorRecordsClass | actions/create-class.js:62-71 | the class's creator is the session's user, whose createdClasses is its list before (empty for a user created on the spot) plus the class's id |
| CreateClass.BlankSubjectKeepsNewUser | actions/create-class.js:36-66 | a missing or blank subject throws a validation error on subject after a first-time user was created, and that user stays |
| CreateClass.RefusalChangesOnlyUsers | actions/create-class.js:18-66 | any reply but success leaves classes and enrollments alone and at most appends the auto-created user |
| CreateClass.CreateAsRefusalKeeps | actions/create-class.js:56-66 | once the creator is known, a thrown `Class.create` changes nothing |
| Sorting.Sort | components/classes/AttendanceHistory.jsx:156 | the result is sorted by the comparator and a permutation of the input |
| Sorting.InsertSorted | components/classes/AttendanceHistory.jsx:187-192 | inserting into a sorted list keeps it sorted |
| Sorting.SortInPlace | components/classes/AttendanceHistory.jsx:156 | `sessions.sort` leaves the array holding `Sort` of its old contents |
| AttendanceHistory.RoundPercent | components/classes/AttendanceHistory.jsx:94 | `Math.round(c / t * 100)` rounds half up to the nearest integer; there is no number when t is 0 |
| AttendanceHistory.PercentInRange | components/classes/AttendanceHistory.jsx:86-94 | with at most t attendees, the percentage is between 0 and 100 |
| AttendanceHistory.CountAttended | components/classes/AttendanceHistory.jsx:86 | the count of attended students is at most the number of students |
| AttendanceHistory.Without | components/classes/AttendanceHistory.jsx:93 | filtering removes every entry of the student and keeps the others' counts |
| AttendanceHistory.WithoutKeepsOrder | components/classes/AttendanceHistory.jsx:93 | the filter keeps order: it drops a single id exactly when it is the student's, and distributes over concatenation |
| AttendanceHistory.UpdateTouchesOnlySelected | components/classes/AttendanceHistory.jsx:73-98 | only the selected session changes, and in it only the edited student's attended flag and markedAt |
| AttendanceHistory.CountAfterMarking | components/classes/AttendanceHistory.jsx:75-86 | the new attendee count is the old one minus the student's attended entries, plus all of their entries when marking present |
| AttendanceHistory.PercentageAfterUpdate | components/classes/AttendanceHistory.jsx:86-94 | the stored percentage is the rounded share of attended students over totalStudents, within 0 to 100 |
| AttendanceHistory.AttendeesAfterUpdate | components/classes/AttendanceHistory.jsx:91-93 | marking present appends the student once; unmarking removes every entry of them; others are untouched |
| AttendanceHistory.WithoutTwice | components/classes/AttendanceHistory.jsx:93 | removing a student twice is removing once |
| AttendanceHistory.UnmarkIdempotent | components/classes/AttendanceHistory.jsx:73-98 | unmarking the same student twice leaves the sessions as after the first time |
| AttendanceHistory.OrdersArePreorders | components/classes/AttendanceHistory.jsx:156-188 | the start-time and numeric college-id comparators are total preorders |
| AttendanceHistory.IdSetMembers | components/classes/AttendanceHistory.jsx:164-180 | `studentMap` holds exactly the ids of the students seen |
| AttendanceHistory.DistinctKeepsFirsts | components/classes/AttendanceHistory.jsx:166-183 | the collected students have pairwise distinct ids, one for each id in the sessions |
| AttendanceHistory.KeptPositionsAreFirsts | components/classes/AttendanceHistory.jsx:166-183 | each collected student is the entry at a first occurrence of its id, and those positions increase |
| AttendanceHistory.FirstsAreKept | components/classes/AttendanceHistory.jsx:166-183 | every first occurrence of an id is collected |
| AttendanceHistory.DistinctKeepsFirstsInOrder | components/classes/AttendanceHistory.jsx:166-183 | the collected students are exactly the first occurrences of each id, in input order |
| AttendanceHistory.DigitIds | components/classes/AttendanceHistory.jsx:174-175 | every id on the numeric list is all digits |
| AttendanceHistory.OtherIds | components/classes/AttendanceHistory.jsx:176-177 | no id on the other list is all digits |
| AttendanceHistory.CollegeIds | components/classes/AttendanceHistory.jsx:169-171 | one college id per collected student |
| AttendanceHistory.SplitKeepsAll | components/classes/AttendanceHistory.jsx:174-178 | together the two lists are the collected ids, none lost or added |
| AttendanceHistory.OneRowPerStudent | components/classes/AttendanceHistory.jsx:166-196 | there is one row per distinct student `_id`, and the row ids are their college ids |
| AttendanceHistory.DigitBlockFirst | components/classes/AttendanceHistory.jsx:186-193 | all-digit ids come first in numeric order, then the others in `localeCompare` order |
| AttendanceHistory.Mark | components/classes/AttendanceHistory.jsx:202-206 | the mark is 1 iff the first entry with that college id attended, else 0 |
| AttendanceHistory.DayKeys | components/classes/AttendanceHistory.jsx:157-159 | the date columns are exactly the sessions' date keys |
| AttendanceHistory.RowFor | components/classes/AttendanceHistory.jsx:197-209 | a row's columns are "CollegeID" and each session's date key |
| AttendanceHistory.CellOfLastSessionThatDay | components/classes/AttendanceHistory.jsx:200-207 | a date column holds the mark of the last session that day, later ones overwriting earlier |
| AttendanceHistory.CollegeIdCell | components/classes/AttendanceHistory.jsx:197 | the "CollegeID" column holds the student's college id unless a date key collides with it |
| AttendanceHistory.CollectSession | components/classes/AttendanceHistory.jsx:167-182 | one session's inner `forEach` extends both lists and `studentMap` as the distinct-first definition says |
| AttendanceHistory.CollectStudents | components/classes/AttendanceHistory.jsx:166-183 | the numeric and other lists are the split of the distinct students, in first-seen order |
| AttendanceHistory.BuildRow | components/classes/AttendanceHistory.jsx:196-209 | the built row is `RowFor` the sorted sessions |
| AttendanceHistory.RowsFor | components/classes/AttendanceHistory.jsx:196-210 | one row per id, in order, each `RowFor` that id |
| AttendanceHistory.BuildRows | components/classes/AttendanceHistory.jsx:162-212 | the rows are `ExportRows` of the sorted sessions |
| AttendanceHistory.PrepareExportData | components/classes/AttendanceHistory.jsx:154-213 | the caller's array ends sorted by start time and as a permutation of before; the rows are `ExportRows` of it |

## Left out

- I/O and plumbing are not modelled: the database connection, request parsing,
  `NextResponse` status codes beyond the reply kinds, logging, `revalidatePath`,
  toasts, the spreadsheet writer, and the HTTP call before the local update.
- The attendance session engine is not part of this model: starting, marking,
  extending and ending sessions, the rotating-key issuer, the live stream, the
  geofence distance and the history and analytics routes. Only the schemas
  these use are modelled.
- `sendOTPEmail` is the `mailDelivered` parameter: a failed delivery gives the
  500 reply after the token is saved, as in the code.
- bcrypt is an opaque function `hash`. Salting is not modelled, so equal inputs
  give equal hashes. `Math.random`, `crypto.randomInt`, `Date.now` and
  `toLocaleDateString` are parameters or a nondeterministic choice.
- The case-insensitive email lookup builds an unescaped regular expression from
  the email. The model treats it as ASCII case-insensitive equality, so
  regular-expression metacharacters in an email are not modelled. In the code
  they change the outcome: an address such as "a+b@x.com" does not match its
  own stored document, so the join and create actions try `User.create` again,
  hit the unique email index and fail every time for that user; a '.' can match
  a different character, so the lookup can pick up another user's document.
  The flag also folds letters outside ASCII: with a stored "Émile@x.com" the
  code finds the user for a session email "émile@x.com", while the model finds
  no one and auto-creates a second user.
- `localeCompare` is the `alphaOrder` parameter, assumed to be a total preorder.
  The numeric `localeCompare` is the order on decimal values. Equal-valued ids
  such as "07" and "7" are tied in the model; how `localeCompare` orders such a
  pair is not modelled.
- Sorting.Sort: stability (equal elements keep their order, as
  `Array.prototype.sort` guarantees) is not stated, only sortedness and
  permutation.
- AttendanceHistory.RoundPercent: JavaScript's floating-point division before
  `Math.round` is replaced by exact rational rounding, and `NaN`/`Infinity` for
  zero students is the value None.
- Timestamps (`createdAt`, `updatedAt`, `timestamps: true`) and the `__v` field
  are not modelled. The reply objects carry only the fields the model can state.
- The export rows are maps, so column order in the spreadsheet is not modelled.
  The attendees of a session view are kept as student ids. A null `student` in
  an attendee, which would throw in the filter, is not represented.
- The 'User not found' branch of joinClass and the 'User not found and cannot be
  created' branch of createClass cannot be reached once the session's email is
  non-empty. The model has no separate path for them: a failed auto-create is
  the thrown error it really is.
- Concurrency between requests (two joins racing between the lookup and the
  insert) is not modelled. Each action runs atomically on the store, and the
  unique indexes are what a race would run into.
