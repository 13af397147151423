/** components/classes/AttendanceHistory.jsx: the teacher's view of past attendance
  * sessions. Two computations are modelled: the local update after one student's
  * attendance is edited, and the rows of the spreadsheet export. */
module AttendanceHistory {
  import opened Wrappers
  import opened SchemaTypes
  import opened Finds
  import opened Digits
  import opened Sorting

  /** One entry of a session's `enrolledStudents`, as the history endpoint sends it. */
  datatype EnrolledStudent = EnrolledStudent(id: ObjectId, collegeId: string, attended: bool,
                                             markedAt: Option<Millis>)

  /** A session as the component holds it; each attendee entry is kept as the id of
    * its student. `attendancePercentage` is None where JavaScript has NaN or Infinity. */
  datatype SessionView = SessionView(
    id: ObjectId,
    startTime: Millis,
    enrolledStudents: seq<EnrolledStudent>,
    attendees: seq<ObjectId>,
    totalStudents: nat,
    attendancePercentage: Option<int>)

  // ---------------------------------------------------------------------------
  // The local update inside updateAttendance
  // ---------------------------------------------------------------------------

  /** `Math.round(count / total * 100)`: the integer nearest to 100 * count / total,
    * halves rounded up; a zero total has no percentage. */
  function RoundPercent(count: nat, total: nat): (r: Option<int>)
    ensures r.Some? <==> total > 0
    ensures r.Some? ==> 2 * r.value * total <= 200 * count + total < 2 * r.value * total + 2 * total
  {
    if total == 0 then None else Some((200 * count + total) / (2 * total))
  }

  /** A product with a positive factor keeps the order of the other factor. */
  lemma FactorOrder(a: int, b: int, t: int)
    requires t > 0 && a * t < b * t
    ensures a < b
  {
  }

  /** With no more attendees than students, the percentage lies in 0..100. */
  lemma PercentInRange(count: nat, total: nat)
    requires 0 < total && count <= total
    ensures 0 <= RoundPercent(count, total).value <= 100
  {
    var p := RoundPercent(count, total).value;
    assert (2 * p) * total < 202 * total;
    FactorOrder(2 * p, 202, total);
    assert 0 * total < (2 * p + 2) * total;
    FactorOrder(0, 2 * p + 2, total);
  }

  /** The number of entries with a truthy `attended`: `filter(s => s.attended).length`. */
  function CountAttended(students: seq<EnrolledStudent>): (n: nat)
    ensures n <= |students|
  {
    if students == [] then 0
    else CountAttended(students[..|students| - 1]) + (if students[|students| - 1].attended then 1 else 0)
  }

  /** How many entries carry the id, and how many of those have attended. */
  function EntriesWithId(students: seq<EnrolledStudent>, studentId: ObjectId): nat {
    if students == [] then 0
    else EntriesWithId(students[..|students| - 1], studentId) + (if students[|students| - 1].id == studentId then 1 else 0)
  }

  function AttendedWithId(students: seq<EnrolledStudent>, studentId: ObjectId): nat {
    if students == [] then 0
    else AttendedWithId(students[..|students| - 1], studentId)
         + (if students[|students| - 1].id == studentId && students[|students| - 1].attended then 1 else 0)
  }

  /** The new `enrolledStudents`: the entries with the id get the new status, and a
    * mark time only when marked present. */
  function MarkStudents(students: seq<EnrolledStudent>, studentId: ObjectId, newStatus: bool, now: Millis)
    : seq<EnrolledStudent>
  {
    seq(|students|, j requires 0 <= j < |students| =>
      if students[j].id == studentId
      then students[j].(attended := newStatus, markedAt := if newStatus then Some(now) else None)
      else students[j])
  }

  /** `attendees.filter(a => a.student._id !== studentId)`. */
  function Without(ids: seq<ObjectId>, studentId: ObjectId): (r: seq<ObjectId>)
    ensures studentId !in r
    ensures forall x :: x != studentId ==> multiset(r)[x] == multiset(ids)[x]
  {
    if ids == [] then []
    else
      assert ids == ids[..|ids| - 1] + [ids[|ids| - 1]];
      var rest := Without(ids[..|ids| - 1], studentId);
      if ids[|ids| - 1] == studentId then rest else rest + [ids[|ids| - 1]]
  }

  /** `filter` keeps what it keeps in order: dropping an id from a single entry removes
    * it exactly when it is that id, and dropping from a concatenation drops from each
    * part. Together these fix `Without(ids, studentId)` as `ids` with every
    * `studentId` taken out and the rest in their original order. */
  lemma {:induction false} WithoutKeepsOrder(a: seq<ObjectId>, b: seq<ObjectId>, studentId: ObjectId)
    ensures forall x :: Without([x], studentId) == if x == studentId then [] else [x]
    ensures Without(a + b, studentId) == Without(a, studentId) + Without(b, studentId)
    decreases |b|
  {
    forall x ensures Without([x], studentId) == if x == studentId then [] else [x] {
      assert [x][..0] == [];
    }
    if b == [] {
      assert a + b == a;
    } else {
      var init := b[..|b| - 1];
      assert (a + b)[..|a + b| - 1] == a + init;
      assert (a + b)[|a + b| - 1] == b[|b| - 1];
      WithoutKeepsOrder(a, init, studentId);
    }
  }

  function UpdateSession(s: SessionView, studentId: ObjectId, newStatus: bool, now: Millis): SessionView {
    var students := MarkStudents(s.enrolledStudents, studentId, newStatus, now);
    s.(enrolledStudents := students,
       attendees := if newStatus then s.attendees + [studentId] else Without(s.attendees, studentId),
       attendancePercentage := RoundPercent(CountAttended(students), s.totalStudents))
  }

  /** `sessions.map(...)`: the session shown in the dialog is updated, every other one
    * is kept as it was. */
  function UpdateLocal(sessions: seq<SessionView>, selectedId: ObjectId, studentId: ObjectId,
                       newStatus: bool, now: Millis): seq<SessionView>
  {
    seq(|sessions|, i requires 0 <= i < |sessions| =>
      if sessions[i].id == selectedId then UpdateSession(sessions[i], studentId, newStatus, now) else sessions[i])
  }

  /** Only the selected session changes, and in it only the edited student's entries,
    * its attendee list and its percentage; id, start time and total stay. */
  lemma UpdateTouchesOnlySelected(sessions: seq<SessionView>, selectedId: ObjectId, studentId: ObjectId,
                                  newStatus: bool, now: Millis)
    ensures var r := UpdateLocal(sessions, selectedId, studentId, newStatus, now);
      && |r| == |sessions|
      && (forall i :: 0 <= i < |r| && sessions[i].id != selectedId ==> r[i] == sessions[i])
      && (forall i :: 0 <= i < |r| ==>
            r[i].id == sessions[i].id && r[i].startTime == sessions[i].startTime
            && r[i].totalStudents == sessions[i].totalStudents
            && |r[i].enrolledStudents| == |sessions[i].enrolledStudents|)
      && (forall i, j :: 0 <= i < |r| && 0 <= j < |r[i].enrolledStudents| ==>
            var before := sessions[i].enrolledStudents[j];
            var after := r[i].enrolledStudents[j];
            if sessions[i].id == selectedId && before.id == studentId
            then after == before.(attended := newStatus, markedAt := if newStatus then Some(now) else None)
            else after == before)
  {
  }

  /** The attended count after the edit: the edited student's entries stop counting
    * as before and count again only when marked present. */
  lemma {:induction false} CountAfterMarking(students: seq<EnrolledStudent>, studentId: ObjectId, newStatus: bool,
                                             now: Millis)
    ensures CountAttended(MarkStudents(students, studentId, newStatus, now))
            == CountAttended(students) - AttendedWithId(students, studentId)
               + (if newStatus then EntriesWithId(students, studentId) else 0)
  {
    if students != [] {
      var init := students[..|students| - 1];
      CountAfterMarking(init, studentId, newStatus, now);
      assert MarkStudents(students, studentId, newStatus, now)[..|init|] == MarkStudents(init, studentId, newStatus, now);
    }
  }

  /** The selected session's percentage is recomputed from its updated entries
    * against the total sent by the server, and lies in 0..100 whenever that total
    * covers the entries. */
  lemma PercentageAfterUpdate(s: SessionView, studentId: ObjectId, newStatus: bool, now: Millis)
    requires 0 < s.totalStudents && |s.enrolledStudents| <= s.totalStudents
    ensures var u := UpdateSession(s, studentId, newStatus, now);
      && u.attendancePercentage.Some?
      && 0 <= u.attendancePercentage.value <= 100
      && u.attendancePercentage == RoundPercent(CountAttended(u.enrolledStudents), s.totalStudents)
  {
    var u := UpdateSession(s, studentId, newStatus, now);
    PercentInRange(CountAttended(u.enrolledStudents), s.totalStudents);
  }

  /** Marking present appends one attendee entry with no duplicate check; marking
    * absent removes every entry of that student and keeps all others. */
  lemma AttendeesAfterUpdate(s: SessionView, studentId: ObjectId, newStatus: bool, now: Millis)
    ensures var u := UpdateSession(s, studentId, newStatus, now);
      && (newStatus ==> multiset(u.attendees)[studentId] == multiset(s.attendees)[studentId] + 1)
      && (!newStatus ==> studentId !in u.attendees)
      && forall x :: x != studentId ==> multiset(u.attendees)[x] == multiset(s.attendees)[x]
  {
  }

  /** Without is idempotent. */
  lemma {:induction false} WithoutTwice(ids: seq<ObjectId>, studentId: ObjectId)
    ensures Without(Without(ids, studentId), studentId) == Without(ids, studentId)
  {
    if ids != [] {
      var init := ids[..|ids| - 1];
      WithoutTwice(init, studentId);
      var w := Without(init, studentId);
      if ids[|ids| - 1] != studentId {
        assert (w + [ids[|ids| - 1]])[..|w|] == w;
      }
    }
  }

  /** Marking the same student absent twice leaves what marking once left. */
  lemma UnmarkIdempotent(sessions: seq<SessionView>, selectedId: ObjectId, studentId: ObjectId, now1: Millis, now2: Millis)
    ensures var once := UpdateLocal(sessions, selectedId, studentId, false, now1);
      UpdateLocal(once, selectedId, studentId, false, now2) == once
  {
    var once := UpdateLocal(sessions, selectedId, studentId, false, now1);
    var twice := UpdateLocal(once, selectedId, studentId, false, now2);
    forall i | 0 <= i < |sessions| ensures twice[i] == once[i] {
      if sessions[i].id == selectedId {
        WithoutTwice(sessions[i].attendees, studentId);
        var m := MarkStudents(sessions[i].enrolledStudents, studentId, false, now1);
        assert MarkStudents(m, studentId, false, now2) == m;
      }
    }
  }

  // ---------------------------------------------------------------------------
  // prepareExportData
  // ---------------------------------------------------------------------------

  /** The sort comparator `new Date(a.startTime) - new Date(b.startTime)`. */
  const ByStartTime := (a: SessionView, b: SessionView) => a.startTime <= b.startTime

  /** `localeCompare(b, undefined, { numeric: true })` on all-digit college ids: their
    * numeric values. */
  const NumericOrder := (a: string, b: string) => DecimalValue(a) <= DecimalValue(b)

  lemma OrdersArePreorders()
    ensures TotalPreorder(ByStartTime) && TotalPreorder(NumericOrder)
  {
  }

  /** All enrolled-student entries, session by session. */
  function Roster(sessions: seq<SessionView>): seq<EnrolledStudent> {
    if sessions == [] then []
    else Roster(sessions[..|sessions| - 1]) + sessions[|sessions| - 1].enrolledStudents
  }

  function IdSet(students: seq<EnrolledStudent>): set<ObjectId> {
    if students == [] then {}
    else IdSet(students[..|students| - 1]) + {students[|students| - 1].id}
  }

  /** IdSet holds exactly the `_id`s of the entries. */
  lemma {:induction false} IdSetMembers(students: seq<EnrolledStudent>)
    ensures forall x :: x in IdSet(students) <==> exists k :: 0 <= k < |students| && students[k].id == x
  {
    if students != [] {
      var init := students[..|students| - 1];
      IdSetMembers(init);
      assert forall k :: 0 <= k < |init| ==> init[k] == students[k];
    }
  }

  lemma IdSetAppend(students: seq<EnrolledStudent>, student: EnrolledStudent)
    ensures IdSet(students + [student]) == IdSet(students) + {student.id}
  {
    assert (students + [student])[..|students|] == students;
  }

  /** The entries kept by the `studentMap` check: the first one of every `_id`. */
  function Distinct(students: seq<EnrolledStudent>): seq<EnrolledStudent> {
    if students == [] then []
    else
      var init := students[..|students| - 1];
      var last := students[|students| - 1];
      if last.id in IdSet(init) then Distinct(init) else Distinct(init) + [last]
  }

  /** The college ids pushed onto `numericStudents` (all digits) and `alphaStudents`. */
  function DigitIds(students: seq<EnrolledStudent>): (r: seq<string>)
    ensures forall k :: 0 <= k < |r| ==> AllDigits(r[k])
  {
    if students == [] then []
    else
      var last := students[|students| - 1];
      DigitIds(students[..|students| - 1]) + (if AllDigits(last.collegeId) then [last.collegeId] else [])
  }

  function OtherIds(students: seq<EnrolledStudent>): (r: seq<string>)
    ensures forall k :: 0 <= k < |r| ==> !AllDigits(r[k])
  {
    if students == [] then []
    else
      var last := students[|students| - 1];
      OtherIds(students[..|students| - 1]) + (if AllDigits(last.collegeId) then [] else [last.collegeId])
  }

  function CollegeIds(students: seq<EnrolledStudent>): (r: seq<string>)
    ensures |r| == |students|
  {
    seq(|students|, k requires 0 <= k < |students| => students[k].collegeId)
  }

  /** `sortedStudents`: the distinct students' college ids, all-digit ones first in
    * numeric order, then the others in `alphaOrder` (`localeCompare`). */
  function ExportIds(sessions: seq<SessionView>, alphaOrder: (string, string) -> bool): seq<string>
    requires TotalPreorder(alphaOrder)
  {
    OrdersArePreorders();
    var students := Distinct(Roster(sessions));
    Sort(DigitIds(students), NumericOrder) + Sort(OtherIds(students), alphaOrder)
  }

  /** The `studentMap` check keeps one entry per `_id`, the first, and loses none. */
  lemma {:induction false} DistinctKeepsFirsts(students: seq<EnrolledStudent>)
    ensures IdSet(Distinct(students)) == IdSet(students)
    ensures |Distinct(students)| == |IdSet(students)|
    ensures var d := Distinct(students); forall i, j :: 0 <= i < j < |d| ==> d[i].id != d[j].id
  {
    if students != [] {
      var init := students[..|students| - 1];
      var last := students[|students| - 1];
      DistinctKeepsFirsts(init);
      assert IdSet(students) == IdSet(init) + {last.id};
      if last.id !in IdSet(init) {
        var d := Distinct(init);
        assert |IdSet(students)| == |IdSet(init)| + 1;
        IdSetAppend(d, last);
        IdSetMembers(d);
      }
    }
  }

  /** Position `i` holds the first entry with its `_id`. */
  predicate IsFirstOfId(students: seq<EnrolledStudent>, i: int) {
    0 <= i < |students| && forall j :: 0 <= j < i ==> students[j].id != students[i].id
  }

  /** The positions of `students` whose entries `Distinct` keeps, in order. */
  function KeptPositions(students: seq<EnrolledStudent>): seq<nat> {
    if students == [] then []
    else
      var init := students[..|students| - 1];
      if students[|students| - 1].id in IdSet(init) then KeptPositions(init)
      else KeptPositions(init) + [|students| - 1]
  }

  /** Each kept position is a first occurrence, holds the kept entry, and the kept
    * positions increase. */
  lemma {:induction false} KeptPositionsAreFirsts(students: seq<EnrolledStudent>)
    ensures var d := Distinct(students);
      var p := KeptPositions(students);
      && |p| == |d|
      && (forall k :: 0 <= k < |p| ==> p[k] < |students| && IsFirstOfId(students, p[k]) && d[k] == students[p[k]])
      && (forall k, l :: 0 <= k < l < |p| ==> p[k] < p[l])
  {
    if students != [] {
      var n := |students|;
      var init := students[..n - 1];
      var last := students[n - 1];
      KeptPositionsAreFirsts(init);
      var p0 := KeptPositions(init);
      forall k | 0 <= k < |p0| ensures IsFirstOfId(students, p0[k]) && students[p0[k]] == init[p0[k]] {
        assert IsFirstOfId(init, p0[k]);
        forall j | 0 <= j < p0[k] ensures students[j].id != students[p0[k]].id {
          assert students[j] == init[j];
        }
      }
      if last.id !in IdSet(init) {
        IdSetMembers(init);
        forall j | 0 <= j < n - 1 ensures students[j].id != last.id {
          assert students[j] == init[j];
        }
      }
    }
  }

  /** Every first occurrence is kept. */
  lemma {:induction false} FirstsAreKept(students: seq<EnrolledStudent>, i: int)
    requires IsFirstOfId(students, i)
    ensures i in KeptPositions(students)
  {
    var n := |students|;
    var init := students[..n - 1];
    if i < n - 1 {
      forall j | 0 <= j < i ensures init[j].id != init[i].id {
        assert students[j] == init[j] && students[i] == init[i];
      }
      FirstsAreKept(init, i);
    } else {
      IdSetMembers(init);
      forall j | 0 <= j < n - 1 ensures init[j].id != students[n - 1].id {
        assert students[j] == init[j];
      }
    }
  }

  /** The `studentMap` check keeps exactly the entries that are the first with their
    * `_id`, and keeps them in the order they come in. */
  lemma DistinctKeepsFirstsInOrder(students: seq<EnrolledStudent>)
    ensures var d := Distinct(students);
      var p := KeptPositions(students);
      && |p| == |d|
      && (forall k :: 0 <= k < |p| ==> IsFirstOfId(students, p[k]) && d[k] == students[p[k]])
      && (forall k, l :: 0 <= k < l < |p| ==> p[k] < p[l])
      && (forall i :: IsFirstOfId(students, i) ==> i in p)
  {
    KeptPositionsAreFirsts(students);
    forall i | IsFirstOfId(students, i) ensures i in KeptPositions(students) {
      FirstsAreKept(students, i);
    }
  }

  /** Every distinct student lands in exactly one of the two lists. */
  lemma {:induction false} SplitKeepsAll(students: seq<EnrolledStudent>)
    ensures multiset(DigitIds(students)) + multiset(OtherIds(students)) == multiset(CollegeIds(students))
  {
    if students != [] {
      var init := students[..|students| - 1];
      SplitKeepsAll(init);
      assert CollegeIds(students) == CollegeIds(init) + [students[|students| - 1].collegeId];
    }
  }

  /** prepareExportData yields exactly one row per distinct student `_id` found in
    * any session, holding that student's college id (the first one seen). */
  lemma OneRowPerStudent(sessions: seq<SessionView>, dayKey: Millis -> string, alphaOrder: (string, string) -> bool)
    requires TotalPreorder(alphaOrder)
    ensures |ExportRows(sessions, dayKey, alphaOrder)| == |IdSet(Roster(sessions))|
    ensures multiset(ExportIds(sessions, alphaOrder)) == multiset(CollegeIds(Distinct(Roster(sessions))))
  {
    OrdersArePreorders();
    var d := Distinct(Roster(sessions));
    DistinctKeepsFirsts(Roster(sessions));
    SplitKeepsAll(d);
    var a := Sort(DigitIds(d), NumericOrder);
    var b := Sort(OtherIds(d), alphaOrder);
    assert multiset(a + b) == multiset(a) + multiset(b);
    assert |multiset(CollegeIds(d))| == |d|;
  }

  /** Two sorted blocks, the first of elements with property `p` and the second of
    * elements without it, form a sequence whose `p` block comes first. */
  lemma BlocksOrdered<T>(a: seq<T>, b: seq<T>, p: T -> bool, le1: (T, T) -> bool, le2: (T, T) -> bool)
    requires forall k :: 0 <= k < |a| ==> p(a[k])
    requires forall k :: 0 <= k < |b| ==> !p(b[k])
    requires Sorted(a, le1) && Sorted(b, le2)
    ensures var s := a + b;
      && (forall i, j :: 0 <= i < j < |s| && !p(s[i]) ==> !p(s[j]))
      && (forall i, j :: 0 <= i < j < |s| && p(s[j]) ==> le1(s[i], s[j]))
      && (forall i, j :: 0 <= i < j < |s| && !p(s[i]) ==> le2(s[i], s[j]))
  {
  }

  /** Every element of a sorted copy has the property all of the original has. */
  lemma SortedCopyKeeps<T(!new)>(s: seq<T>, le: (T, T) -> bool, p: T -> bool)
    requires TotalPreorder(le)
    requires forall k :: 0 <= k < |s| ==> p(s[k])
    ensures forall k :: 0 <= k < |Sort(s, le)| ==> p(Sort(s, le)[k])
  {
    var r := Sort(s, le);
    PermutationMembers(r, s);
    forall k | 0 <= k < |r| ensures p(r[k]) {
      assert r[k] in s;
    }
  }

  /** All-digit college ids come first, in numeric order; the others follow in
    * `alphaOrder`. */
  lemma DigitBlockFirst(sessions: seq<SessionView>, alphaOrder: (string, string) -> bool)
    requires TotalPreorder(alphaOrder)
    ensures var ids := ExportIds(sessions, alphaOrder);
      && (forall i, j :: 0 <= i < j < |ids| && !AllDigits(ids[i]) ==> !AllDigits(ids[j]))
      && (forall i, j :: 0 <= i < j < |ids| && AllDigits(ids[j]) ==> DecimalValue(ids[i]) <= DecimalValue(ids[j]))
      && (forall i, j :: 0 <= i < j < |ids| && !AllDigits(ids[i]) ==> alphaOrder(ids[i], ids[j]))
  {
    OrdersArePreorders();
    var d := Distinct(Roster(sessions));
    var digits := (x: string) => AllDigits(x);
    var others := (x: string) => !AllDigits(x);
    SortedCopyKeeps(DigitIds(d), NumericOrder, digits);
    SortedCopyKeeps(OtherIds(d), alphaOrder, others);
    BlocksOrdered(Sort(DigitIds(d), NumericOrder), Sort(OtherIds(d), alphaOrder), digits, NumericOrder, alphaOrder);
  }

  /** A spreadsheet cell: the CollegeID column, or a 0/1 attendance mark. */
  datatype Cell = IdCell(collegeId: string) | MarkCell(mark: nat)

  /** `studentInSession && studentInSession.attended ? 1 : 0`, where `find` takes the
    * first entry with that college id. */
  function Mark(s: SessionView, collegeId: string): (m: nat)
    ensures m == 0 || m == 1
    ensures m == 1 <==> exists i :: 0 <= i < |s.enrolledStudents|
                                   && s.enrolledStudents[i].collegeId == collegeId
                                   && s.enrolledStudents[i].attended
                                   && forall j :: 0 <= j < i ==> s.enrolledStudents[j].collegeId != collegeId
  {
    match FirstIndex(s.enrolledStudents, (e: EnrolledStudent) => e.collegeId == collegeId)
    case None => 0
    case Some(i) => if s.enrolledStudents[i].attended then 1 else 0
  }

  /** The date keys of the sessions. */
  function DayKeys(sessions: seq<SessionView>, dayKey: Millis -> string): (r: set<string>)
    ensures forall i :: 0 <= i < |sessions| ==> dayKey(sessions[i].startTime) in r
    ensures forall key :: key in r ==> exists i :: 0 <= i < |sessions| && dayKey(sessions[i].startTime) == key
  {
    if sessions == [] then {}
    else
      var init := sessions[..|sessions| - 1];
      assert forall i :: 0 <= i < |init| ==> init[i] == sessions[i];
      DayKeys(init, dayKey) + {dayKey(sessions[|sessions| - 1].startTime)}
  }

  /** `studentAttendance`: the CollegeID key, then each session's date key assigned in
    * turn, a later session overwriting an earlier one of the same day. */
  function RowFor(sessions: seq<SessionView>, collegeId: string, dayKey: Millis -> string): (r: map<string, Cell>)
    ensures r.Keys == {"CollegeID"} + DayKeys(sessions, dayKey)
  {
    if sessions == [] then map["CollegeID" := IdCell(collegeId)]
    else
      var last := sessions[|sessions| - 1];
      RowFor(sessions[..|sessions| - 1], collegeId, dayKey)[dayKey(last.startTime) := MarkCell(Mark(last, collegeId))]
  }

  /** A date column holds the mark of the last session, in sorted order, with that
    * date: earlier sessions of the same day are overwritten. */
  lemma {:induction false} CellOfLastSessionThatDay(sessions: seq<SessionView>, collegeId: string,
                                                    dayKey: Millis -> string, i: nat)
    requires i < |sessions|
    requires forall j :: i < j < |sessions| ==> dayKey(sessions[j].startTime) != dayKey(sessions[i].startTime)
    ensures RowFor(sessions, collegeId, dayKey)[dayKey(sessions[i].startTime)] == MarkCell(Mark(sessions[i], collegeId))
  {
    if i < |sessions| - 1 {
      var init := sessions[..|sessions| - 1];
      assert init[i] == sessions[i];
      CellOfLastSessionThatDay(init, collegeId, dayKey, i);
    }
  }

  /** The CollegeID cell keeps the student's college id unless a date key collides
    * with the name "CollegeID". */
  lemma {:induction false} CollegeIdCell(sessions: seq<SessionView>, collegeId: string, dayKey: Millis -> string)
    requires forall i :: 0 <= i < |sessions| ==> dayKey(sessions[i].startTime) != "CollegeID"
    ensures RowFor(sessions, collegeId, dayKey)["CollegeID"] == IdCell(collegeId)
  {
    if sessions != [] {
      var init := sessions[..|sessions| - 1];
      assert forall i :: 0 <= i < |init| ==> init[i] == sessions[i];
      CollegeIdCell(init, collegeId, dayKey);
    }
  }

  /** The rows of the export, for sessions already in start-time order. */
  function ExportRows(sessions: seq<SessionView>, dayKey: Millis -> string, alphaOrder: (string, string) -> bool)
    : seq<map<string, Cell>>
    requires TotalPreorder(alphaOrder)
  {
    var ids := ExportIds(sessions, alphaOrder);
    seq(|ids|, k requires 0 <= k < |ids| => RowFor(sessions, ids[k], dayKey))
  }

  /** One more entry: it is kept, in its list, exactly when its `_id` is new. */
  lemma CollectStep(seen: seq<EnrolledStudent>, student: EnrolledStudent)
    ensures IdSet(seen + [student]) == IdSet(seen) + {student.id}
    ensures DigitIds(Distinct(seen + [student])) == DigitIds(Distinct(seen))
              + (if student.id !in IdSet(seen) && AllDigits(student.collegeId) then [student.collegeId] else [])
    ensures OtherIds(Distinct(seen + [student])) == OtherIds(Distinct(seen))
              + (if student.id !in IdSet(seen) && !AllDigits(student.collegeId) then [student.collegeId] else [])
  {
    assert (seen + [student])[..|seen|] == seen;
    var d := Distinct(seen);
    assert (d + [student])[..|d|] == d;
  }

  lemma PrefixStep<T>(before: seq<T>, s: seq<T>, j: nat)
    requires j < |s|
    ensures before + s[..j + 1] == (before + s[..j]) + [s[j]]
  {
    assert s[..j + 1] == s[..j] + [s[j]];
  }

  lemma RosterStep(sessions: seq<SessionView>, i: nat)
    requires i < |sessions|
    ensures Roster(sessions[..i + 1]) == Roster(sessions[..i]) + sessions[i].enrolledStudents
  {
    assert sessions[..i + 1][..i] == sessions[..i];
  }

  /** The inner `session.enrolledStudents.forEach`, continuing the lists built from
    * the entries `before` it. */
  method CollectSession(students: seq<EnrolledStudent>, ghost before: seq<EnrolledStudent>,
                        numeric0: seq<string>, alpha0: seq<string>, seen0: set<ObjectId>)
    returns (numericStudents: seq<string>, alphaStudents: seq<string>, studentMap: set<ObjectId>)
    requires numeric0 == DigitIds(Distinct(before)) && alpha0 == OtherIds(Distinct(before))
    requires seen0 == IdSet(before)
    ensures numericStudents == DigitIds(Distinct(before + students))
    ensures alphaStudents == OtherIds(Distinct(before + students))
    ensures studentMap == IdSet(before + students)
  {
    numericStudents, alphaStudents, studentMap := numeric0, alpha0, seen0;
    assert before + students[..0] == before;
    for j := 0 to |students|
      invariant numericStudents == DigitIds(Distinct(before + students[..j]))
      invariant alphaStudents == OtherIds(Distinct(before + students[..j]))
      invariant studentMap == IdSet(before + students[..j])
    {
      var student := students[j];
      CollectStep(before + students[..j], student);
      PrefixStep(before, students, j);
      if student.id !in studentMap {
        if AllDigits(student.collegeId) {
          numericStudents := numericStudents + [student.collegeId];
        } else {
          alphaStudents := alphaStudents + [student.collegeId];
        }
        studentMap := studentMap + {student.id};
      }
    }
    assert students[..|students|] == students;
  }

  /** The `sessions.forEach` pass: every student whose `_id` is not yet in
    * `studentMap` has its college id pushed onto the all-digit or the other list. */
  method CollectStudents(sessions: array<SessionView>)
    returns (numericStudents: seq<string>, alphaStudents: seq<string>)
    ensures numericStudents == DigitIds(Distinct(Roster(sessions[..])))
    ensures alphaStudents == OtherIds(Distinct(Roster(sessions[..])))
  {
    numericStudents, alphaStudents := [], [];
    var studentMap: set<ObjectId> := {};
    for i := 0 to sessions.Length
      invariant numericStudents == DigitIds(Distinct(Roster(sessions[..i])))
      invariant alphaStudents == OtherIds(Distinct(Roster(sessions[..i])))
      invariant studentMap == IdSet(Roster(sessions[..i]))
    {
      numericStudents, alphaStudents, studentMap :=
        CollectSession(sessions[i].enrolledStudents, Roster(sessions[..i]), numericStudents, alphaStudents, studentMap);
      RosterStep(sessions[..], i);
      assert sessions[..][..i + 1] == sessions[..i + 1] && sessions[..][..i] == sessions[..i];
    }
    assert sessions[..sessions.Length] == sessions[..];
  }

  /** One row: the `sortedSessions.forEach` that assigns each session's mark under its
    * date key. */
  method BuildRow(sessions: array<SessionView>, collegeId: string, dayKey: Millis -> string)
    returns (row: map<string, Cell>)
    ensures row == RowFor(sessions[..], collegeId, dayKey)
  {
    row := map["CollegeID" := IdCell(collegeId)];
    for i := 0 to sessions.Length
      invariant row == RowFor(sessions[..i], collegeId, dayKey)
    {
      var session := sessions[i];
      var found := FirstIndex(session.enrolledStudents, (e: EnrolledStudent) => e.collegeId == collegeId);
      var mark := if found.Some? && session.enrolledStudents[found.value].attended then 1 else 0;
      assert sessions[..i + 1][..i] == sessions[..i];
      row := row[dayKey(session.startTime) := MarkCell(mark)];
    }
    assert sessions[..sessions.Length] == sessions[..];
  }

  /** `sortedStudents.map(...)`: one row per college id, in order. */
  method RowsFor(sessions: array<SessionView>, ids: seq<string>, dayKey: Millis -> string)
    returns (rows: seq<map<string, Cell>>)
    ensures |rows| == |ids|
    ensures forall m :: 0 <= m < |ids| ==> rows[m] == RowFor(sessions[..], ids[m], dayKey)
  {
    ghost var sorted := sessions[..];
    rows := [];
    for k := 0 to |ids|
      invariant |rows| == k
      invariant forall m :: 0 <= m < k ==> rows[m] == RowFor(sorted, ids[m], dayKey)
    {
      var row := BuildRow(sessions, ids[k], dayKey);
      assert row == RowFor(sorted, ids[k], dayKey);
      rows := rows + [row];
    }
  }

  /** Everything after the sort: the students, their order and one row each. */
  method BuildRows(sessions: array<SessionView>, dayKey: Millis -> string, alphaOrder: (string, string) -> bool)
    returns (rows: seq<map<string, Cell>>)
    requires TotalPreorder(alphaOrder)
    ensures rows == ExportRows(sessions[..], dayKey, alphaOrder)
  {
    OrdersArePreorders();
    ghost var snap := sessions[..];
    var numericStudents, alphaStudents := CollectStudents(sessions);
    var sortedStudents := Sort(numericStudents, NumericOrder) + Sort(alphaStudents, alphaOrder);
    assert sortedStudents == ExportIds(snap, alphaOrder);
    rows := RowsFor(sessions, sortedStudents, dayKey);
    ghost var expected := ExportRows(snap, dayKey, alphaOrder);
    assert |rows| == |expected|;
    assert forall m :: 0 <= m < |rows| ==> rows[m] == expected[m];
  }

  /** prepareExportData: sorts the caller's array in place by start time (the caller
    * sees the new order), then builds the rows. `dayKey` is
    * `toLocaleDateString('en-GB')`; `alphaOrder` is `localeCompare`. */
  method PrepareExportData(sessions: array<SessionView>, dayKey: Millis -> string,
                           alphaOrder: (string, string) -> bool)
    returns (rows: seq<map<string, Cell>>)
    requires TotalPreorder(alphaOrder)
    modifies sessions
    ensures sessions[..] == Sort(old(sessions[..]), ByStartTime)
    ensures Sorted(sessions[..], ByStartTime) && multiset(sessions[..]) == multiset(old(sessions[..]))
    ensures rows == ExportRows(sessions[..], dayKey, alphaOrder)
  {
    OrdersArePreorders();
    SortInPlace(sessions, ByStartTime);
    rows := BuildRows(sessions, dayKey, alphaOrder);
  }
}
