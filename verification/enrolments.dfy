/** The enrolment handlers: the courses a user is enrolled in (optionally
    filtered by course name), the courses where the enrolment is suspended,
    and reinstating a suspended enrolment. */
module Enrolments {
  import opened Platform
  import opened Seqs
  import opened Order
  import opened Text
  import opened Schema

  // ---------------------------------------------------------------------
  // get_user_courses_filtered

  /** One entry of `get_user_courses_filtered`. */
  datatype EnrolledCourse = EnrolledCourse(
    courseId: int,
    fullname: string,
    shortname: string,
    category: int,
    startDate: int,
    endDate: int,
    enrolmentStatus: int,
    enrolmentTimeCreated: int,
    enrolmentTimeModified: int,
    enrolMethod: string)

  /** The course filter: with fullname tokens, some token occurs in the
      fullname ignoring case; with shortname tokens, the shortname is one of
      them. No tokens means no restriction. */
  predicate Passes(c: Course, fullTokens: seq<string>, shortTokens: seq<string>) {
    && (|fullTokens| == 0 || exists k :: 0 <= k < |fullTokens| && ContainsIgnoringCase(c.fullname, fullTokens[k]))
    && (|shortTokens| == 0 || c.shortname in shortTokens)
  }

  /** The joined row an enrolment contributes: it must be the user's, through
      an enabled method, of an existing course that passes the filter. */
  function EnrolledRow(store: Store, userId: int, fullTokens: seq<string>, shortTokens: seq<string>, ue: UserEnrolment): (r: Option<EnrolledCourse>)
    ensures r.Some? <==>
      && ue.userId == userId
      && EnrolById(store, ue.enrolId).Some?
      && EnrolById(store, ue.enrolId).value.status == 0
      && CourseById(store, EnrolById(store, ue.enrolId).value.courseId).Some?
      && Passes(CourseById(store, EnrolById(store, ue.enrolId).value.courseId).value, fullTokens, shortTokens)
    ensures r.Some? ==>
      var e := EnrolById(store, ue.enrolId).value;
      var c := CourseById(store, e.courseId).value;
      && r.value.courseId == e.courseId
      && r.value.fullname == c.fullname
      && r.value.shortname == c.shortname
      && r.value.category == c.category
      && r.value.startDate == c.startDate
      && r.value.endDate == c.endDate
      && r.value.enrolmentStatus == ue.status
      && r.value.enrolmentTimeCreated == ue.timeCreated
      && r.value.enrolmentTimeModified == ue.timeModified
      && r.value.enrolMethod == e.enrol
  {
    if ue.userId != userId then None
    else
      var e := EnrolById(store, ue.enrolId);
      if e.None? || e.value.status != 0 then None
      else
        var c := CourseById(store, e.value.courseId);
        if c.None? || !Passes(c.value, fullTokens, shortTokens) then None
        else
          Some(EnrolledCourse(c.value.id, c.value.fullname, c.value.shortname, c.value.category,
                              c.value.startDate, c.value.endDate, ue.status, ue.timeCreated,
                              ue.timeModified, e.value.enrol))
  }

  /** `x` is the row some enrolment contributes. */
  ghost predicate FromEnrolment(store: Store, userId: int, fullTokens: seq<string>, shortTokens: seq<string>, x: EnrolledCourse) {
    exists ue :: ue in store.userEnrolments && EnrolledRow(store, userId, fullTokens, shortTokens, ue) == Some(x)
  }

  predicate FullnameLe(a: EnrolledCourse, b: EnrolledCourse) {
    StrLe(a.fullname, b.fullname)
  }

  lemma FullnameOrder()
    ensures TotalPreorder(FullnameLe)
  {
    forall a: EnrolledCourse, b: EnrolledCourse ensures FullnameLe(a, b) || FullnameLe(b, a) {
      StrLeTotal(a.fullname, b.fullname);
    }
    forall a: EnrolledCourse, b: EnrolledCourse, c: EnrolledCourse | FullnameLe(a, b) && FullnameLe(b, c)
      ensures FullnameLe(a, c)
    {
      StrLeTrans(a.fullname, b.fullname, c.fullname);
    }
  }

  function CourseKey(x: EnrolledCourse): int {
    x.courseId
  }

  /** The joined rows in `ORDER BY c.fullname` order, keyed by course id. */
  function EnrolledCourses(store: Store, userId: int, fullTokens: seq<string>, shortTokens: seq<string>): (r: seq<EnrolledCourse>)
    ensures SortedBy(r, FullnameLe)
    ensures DistinctKeys(r, CourseKey)
    ensures forall x :: x in r ==> FromEnrolment(store, userId, fullTokens, shortTokens, x)
    ensures forall ue :: ue in store.userEnrolments && EnrolledRow(store, userId, fullTokens, shortTokens, ue).Some? ==>
      EnrolledRow(store, userId, fullTokens, shortTokens, ue).value.courseId in KeySet(r, CourseKey)
  {
    var rows := Collect(store.userEnrolments, (ue: UserEnrolment) => EnrolledRow(store, userId, fullTokens, shortTokens, ue));
    FullnameOrder();
    var sorted := SortBy(rows, FullnameLe);
    SameCourseSameName(store, userId, fullTokens, shortTokens, rows, sorted);
    CollapseKeepsSorted(sorted, CourseKey, FullnameLe);
    var r := Collapse(sorted, CourseKey);
    EnrolledCoursesMembers(store, userId, fullTokens, shortTokens, rows, sorted, r);
    r
  }

  /** Two rows for the same course carry the same course name, so keying by
      course keeps the name order. */
  lemma SameCourseSameName(store: Store, userId: int, fullTokens: seq<string>, shortTokens: seq<string>,
                           rows: seq<EnrolledCourse>, sorted: seq<EnrolledCourse>)
    requires rows == Collect(store.userEnrolments, (ue: UserEnrolment) => EnrolledRow(store, userId, fullTokens, shortTokens, ue))
    requires TotalPreorder(FullnameLe)
    requires sorted == SortBy(rows, FullnameLe)
    ensures forall i, j :: 0 <= i < |sorted| && 0 <= j < |sorted| && CourseKey(sorted[i]) == CourseKey(sorted[j]) ==>
      FullnameLe(sorted[i], sorted[j])
  {
    forall i, j | 0 <= i < |sorted| && 0 <= j < |sorted| && CourseKey(sorted[i]) == CourseKey(sorted[j])
      ensures FullnameLe(sorted[i], sorted[j])
    {
      SortByMembers(rows, FullnameLe, sorted[i]);
      SortByMembers(rows, FullnameLe, sorted[j]);
      var a :| 0 <= a < |store.userEnrolments| &&
        EnrolledRow(store, userId, fullTokens, shortTokens, store.userEnrolments[a]) == Some(sorted[i]);
      var b :| 0 <= b < |store.userEnrolments| &&
        EnrolledRow(store, userId, fullTokens, shortTokens, store.userEnrolments[b]) == Some(sorted[j]);
      assert sorted[i].fullname == sorted[j].fullname;
      StrLeRefl(sorted[i].fullname);
    }
  }

  lemma EnrolledCoursesMembers(store: Store, userId: int, fullTokens: seq<string>, shortTokens: seq<string>,
                               rows: seq<EnrolledCourse>, sorted: seq<EnrolledCourse>, r: seq<EnrolledCourse>)
    requires rows == Collect(store.userEnrolments, (ue: UserEnrolment) => EnrolledRow(store, userId, fullTokens, shortTokens, ue))
    requires TotalPreorder(FullnameLe)
    requires sorted == SortBy(rows, FullnameLe)
    requires r == Collapse(sorted, CourseKey)
    ensures forall x :: x in r ==> FromEnrolment(store, userId, fullTokens, shortTokens, x)
    ensures forall ue :: ue in store.userEnrolments && EnrolledRow(store, userId, fullTokens, shortTokens, ue).Some? ==>
      EnrolledRow(store, userId, fullTokens, shortTokens, ue).value.courseId in KeySet(r, CourseKey)
  {
    forall x | x in r ensures FromEnrolment(store, userId, fullTokens, shortTokens, x) {
      EnrolledRowSound(store, userId, fullTokens, shortTokens, rows, sorted, r, x);
    }
    forall ue | ue in store.userEnrolments && EnrolledRow(store, userId, fullTokens, shortTokens, ue).Some?
      ensures EnrolledRow(store, userId, fullTokens, shortTokens, ue).value.courseId in KeySet(r, CourseKey)
    {
      EnrolledRowKept(store, userId, fullTokens, shortTokens, rows, sorted, r, ue);
    }
  }

  lemma EnrolledRowSound(store: Store, userId: int, fullTokens: seq<string>, shortTokens: seq<string>,
                         rows: seq<EnrolledCourse>, sorted: seq<EnrolledCourse>, r: seq<EnrolledCourse>, x: EnrolledCourse)
    requires rows == Collect(store.userEnrolments, (ue: UserEnrolment) => EnrolledRow(store, userId, fullTokens, shortTokens, ue))
    requires TotalPreorder(FullnameLe)
    requires sorted == SortBy(rows, FullnameLe)
    requires r == Collapse(sorted, CourseKey)
    requires x in r
    ensures FromEnrolment(store, userId, fullTokens, shortTokens, x)
  {
    var m :| 0 <= m < |r| && r[m] == x;
    assert LastWithKey(sorted, CourseKey, r[m]);
    SortByMembers(rows, FullnameLe, x);
    var a :| 0 <= a < |store.userEnrolments| &&
      EnrolledRow(store, userId, fullTokens, shortTokens, store.userEnrolments[a]) == Some(x);
  }

  lemma EnrolledRowKept(store: Store, userId: int, fullTokens: seq<string>, shortTokens: seq<string>,
                        rows: seq<EnrolledCourse>, sorted: seq<EnrolledCourse>, r: seq<EnrolledCourse>, ue: UserEnrolment)
    requires rows == Collect(store.userEnrolments, (ue: UserEnrolment) => EnrolledRow(store, userId, fullTokens, shortTokens, ue))
    requires TotalPreorder(FullnameLe)
    requires sorted == SortBy(rows, FullnameLe)
    requires r == Collapse(sorted, CourseKey)
    requires ue in store.userEnrolments && EnrolledRow(store, userId, fullTokens, shortTokens, ue).Some?
    ensures EnrolledRow(store, userId, fullTokens, shortTokens, ue).value.courseId in KeySet(r, CourseKey)
  {
    var x := EnrolledRow(store, userId, fullTokens, shortTokens, ue).value;
    var a :| 0 <= a < |store.userEnrolments| && store.userEnrolments[a] == ue;
    assert x in rows;
    SortByMembers(rows, FullnameLe, x);
    var m :| 0 <= m < |sorted| && sorted[m] == x;
    assert CourseKey(sorted[m]) in KeySet(sorted, CourseKey);
  }

  /** `get_user_courses_filtered`: the capability check at system level, the
      user, then the filtered enrolments. */
  function CoursesFiltered(store: Store, env: Env, username: string, fullnameFilter: string, shortnameFilter: string): (r: Result<seq<EnrolledCourse>>)
    ensures !env.can(UserViewDetails, SystemScope) ==> r == Err(NoPermission(UserViewDetails))
    ensures env.can(UserViewDetails, SystemScope) && FetchUser(store, username).Err? ==>
      r == Err(FetchUser(store, username).error)
    ensures r.Ok? <==> env.can(UserViewDetails, SystemScope) && FetchUser(store, username).Ok?
    ensures r.Ok? ==> r.value == EnrolledCourses(store, FetchUser(store, username).value.id,
                                                  FilterTokens(fullnameFilter), FilterTokens(shortnameFilter))
  {
    if !env.can(UserViewDetails, SystemScope) then Err(NoPermission(UserViewDetails))
    else
      var user :- FetchUser(store, username);
      Ok(EnrolledCourses(store, user.id, FilterTokens(fullnameFilter), FilterTokens(shortnameFilter)))
  }

  /** A filter that is blank once trimmed, "0" included, restricts nothing. */
  lemma BlankFilterIsNoFilter(f: string)
    requires IsBlank(Trim(f))
    ensures FilterTokens(f) == []
  {
  }

  // ---------------------------------------------------------------------
  // list_suspended_courses

  /** One entry of `list_suspended_courses`. */
  datatype SuspendedCourse = SuspendedCourse(courseId: int, fullname: string, shortname: string, suspensionTimestamp: int)

  /** The joined row a suspended enrolment of the user through an enabled
      method of an existing course contributes. */
  function SuspendedRow(store: Store, userId: int, ue: UserEnrolment): (r: Option<SuspendedCourse>)
    ensures r.Some? <==>
      && ue.userId == userId && ue.status == 1
      && EnrolById(store, ue.enrolId).Some? && EnrolById(store, ue.enrolId).value.status == 0
      && CourseById(store, EnrolById(store, ue.enrolId).value.courseId).Some?
    ensures r.Some? ==>
      var c := CourseById(store, EnrolById(store, ue.enrolId).value.courseId).value;
      && r.value.courseId == c.id
      && r.value.fullname == c.fullname
      && r.value.shortname == c.shortname
      && r.value.suspensionTimestamp == ue.timeModified
  {
    if ue.userId != userId || ue.status != 1 then None
    else
      var e := EnrolById(store, ue.enrolId);
      if e.None? || e.value.status != 0 then None
      else
        var c := CourseById(store, e.value.courseId);
        if c.None? then None
        else Some(SuspendedCourse(c.value.id, c.value.fullname, c.value.shortname, ue.timeModified))
  }

  /** `x` is the row some suspended enrolment contributes. */
  ghost predicate FromSuspension(store: Store, userId: int, x: SuspendedCourse) {
    exists ue :: ue in store.userEnrolments && SuspendedRow(store, userId, ue) == Some(x)
  }

  function SuspendedKey(x: SuspendedCourse): int {
    x.courseId
  }

  /** `list_suspended_courses`: each course with a suspended enrolment once. */
  function ListSuspended(store: Store, env: Env, username: string): (r: Result<seq<SuspendedCourse>>)
    ensures !env.can(UserViewDetails, SystemScope) ==> r == Err(NoPermission(UserViewDetails))
    ensures r.Ok? <==> env.can(UserViewDetails, SystemScope) && FetchUser(store, username).Ok?
    ensures env.can(UserViewDetails, SystemScope) && FetchUser(store, username).Err? ==>
      r == Err(FetchUser(store, username).error)
    ensures r.Ok? ==> DistinctKeys(r.value, SuspendedKey)
    ensures r.Ok? ==> forall x :: x in r.value ==> FromSuspension(store, FetchUser(store, username).value.id, x)
    ensures r.Ok? ==> forall ue :: ue in store.userEnrolments && SuspendedRow(store, FetchUser(store, username).value.id, ue).Some? ==>
      SuspendedRow(store, FetchUser(store, username).value.id, ue).value.courseId in KeySet(r.value, SuspendedKey)
  {
    if !env.can(UserViewDetails, SystemScope) then Err(NoPermission(UserViewDetails))
    else
      var user :- FetchUser(store, username);
      var rows := Collect(store.userEnrolments, (ue: UserEnrolment) => SuspendedRow(store, user.id, ue));
      var r := Collapse(rows, SuspendedKey);
      SuspendedMembers(store, user.id, rows, r);
      Ok(r)
  }

  lemma SuspendedMembers(store: Store, userId: int, rows: seq<SuspendedCourse>, r: seq<SuspendedCourse>)
    requires rows == Collect(store.userEnrolments, (ue: UserEnrolment) => SuspendedRow(store, userId, ue))
    requires r == Collapse(rows, SuspendedKey)
    ensures forall x :: x in r ==> FromSuspension(store, userId, x)
    ensures forall ue :: ue in store.userEnrolments && SuspendedRow(store, userId, ue).Some? ==>
      SuspendedRow(store, userId, ue).value.courseId in KeySet(r, SuspendedKey)
  {
    forall x | x in r ensures FromSuspension(store, userId, x) {
      var m :| 0 <= m < |r| && r[m] == x;
      assert LastWithKey(rows, SuspendedKey, r[m]);
      var a :| 0 <= a < |store.userEnrolments| && SuspendedRow(store, userId, store.userEnrolments[a]) == Some(x);
    }
    forall ue | ue in store.userEnrolments && SuspendedRow(store, userId, ue).Some?
      ensures SuspendedRow(store, userId, ue).value.courseId in KeySet(r, SuspendedKey)
    {
      var x := SuspendedRow(store, userId, ue).value;
      var a :| 0 <= a < |store.userEnrolments| && store.userEnrolments[a] == ue;
      assert x in rows;
      var m :| 0 <= m < |rows| && rows[m] == x;
      assert SuspendedKey(rows[m]) in KeySet(rows, SuspendedKey);
    }
  }

  /** Every course listed as suspended is among the user's courses when no
      filter is given. */
  lemma SuspendedCoursesAreEnrolled(store: Store, env: Env, username: string, courseId: int)
    requires ListSuspended(store, env, username).Ok?
    requires courseId in KeySet(ListSuspended(store, env, username).value, SuspendedKey)
    ensures CoursesFiltered(store, env, username, "", "").Ok?
    ensures courseId in KeySet(CoursesFiltered(store, env, username, "", "").value, CourseKey)
  {
    var u := FetchUser(store, username).value;
    var s := ListSuspended(store, env, username).value;
    var m :| 0 <= m < |s| && SuspendedKey(s[m]) == courseId;
    var ue :| ue in store.userEnrolments && SuspendedRow(store, u.id, ue) == Some(s[m]);
    assert FilterTokens("") == [];
    assert EnrolledRow(store, u.id, [], [], ue).Some?;
  }

  // ---------------------------------------------------------------------
  // unsuspend_user

  /** The answer of `unsuspend_user`. */
  datatype Unsuspension = Unsuspension(success: bool, previousStatus: Option<int>, newStatus: Option<int>)

  /** The enrolment is the user's, through a method of the course. */
  predicate InCourse(store: Store, courseId: int, userId: int, ue: UserEnrolment) {
    && ue.userId == userId
    && EnrolById(store, ue.enrolId).Some?
    && EnrolById(store, ue.enrolId).value.courseId == courseId
  }

  /** The first of the user's suspended enrolments in the course, the one
      the handler reinstates. */
  function FirstSuspended(store: Store, courseId: int, userId: int): (r: Option<UserEnrolment>)
    ensures r.None? <==> forall ue :: ue in store.userEnrolments ==> !(InCourse(store, courseId, userId, ue) && ue.status == 1)
    ensures r.Some? ==> r.value in store.userEnrolments && InCourse(store, courseId, userId, r.value) && r.value.status == 1
  {
    First(store.userEnrolments, (ue: UserEnrolment) => InCourse(store, courseId, userId, ue) && ue.status == 1)
  }

  /** `update_user_enrol(..., ENROL_USER_ACTIVE)`: the user's enrolment row for
      this method becomes active. */
  function Reactivate(store: Store, enrolId: int, userId: int): (s: Store)
    ensures |s.userEnrolments| == |store.userEnrolments|
    ensures s == store.(userEnrolments := s.userEnrolments)
  {
    var ues := store.userEnrolments;
    var k := FirstIndex(ues, (ue: UserEnrolment) => ue.enrolId == enrolId && ue.userId == userId);
    if k < 0 then store else store.(userEnrolments := ues[k := ues[k].(status := 0)])
  }

  /** `unsuspend_user`. */
  function Unsuspend(store: Store, env: Env, username: string, courseId: int): (r: Result<Outcome<Unsuspension>>)
    ensures FetchCourse(store, courseId).Err? ==> r == Err(RecordMissing("course"))
    ensures FetchCourse(store, courseId).Ok? && FetchUser(store, username).Err? ==>
      r == Err(FetchUser(store, username).error)
    ensures FetchCourse(store, courseId).Ok? && FetchUser(store, username).Ok? ==>
      var u := FetchUser(store, username).value;
      var enrolled := (ue: UserEnrolment) => InCourse(store, courseId, u.id, ue);
      var suspended := (ue: UserEnrolment) => InCourse(store, courseId, u.id, ue) && ue.status == 1;
      var active := (ue: UserEnrolment) => InCourse(store, courseId, u.id, ue) && ue.status == 0;
      // not enrolled at all
      && (Count(store.userEnrolments, enrolled) == 0 ==> r == Err(InvalidParameter(NotEnrolled)))
      // nothing suspended: a report and no change
      && (Count(store.userEnrolments, enrolled) > 0 && Count(store.userEnrolments, suspended) == 0 ==>
            && r.Ok? && r.value.store == store
            && (Count(store.userEnrolments, active) > 0 ==> r.value.answer == Unsuspension(false, Some(0), Some(0)))
            && (Count(store.userEnrolments, active) == 0 ==> r.value.answer == Unsuspension(false, None, None)))
      // the first suspended enrolment is reinstated, or an error says why not
      && (Count(store.userEnrolments, suspended) > 0 ==>
            var ue := FirstSuspended(store, courseId, u.id).value;
            var plugin := EnrolById(store, ue.enrolId).value.enrol;
            && (!env.pluginAvailable(plugin) ==> r == Err(InvalidParameter(PluginUnavailable(plugin))))
            && (env.pluginAvailable(plugin) && !env.can(EnrolManage(plugin), CourseScope(courseId)) ==>
                  r == Err(NoPermission(EnrolManage(plugin))))
            && (env.pluginAvailable(plugin) && env.can(EnrolManage(plugin), CourseScope(courseId)) ==>
                  r == Ok(Outcome(Reactivate(store, ue.enrolId, u.id), Unsuspension(true, Some(1), Some(0))))))
  {
    var course :- FetchCourse(store, courseId);
    var user :- FetchUser(store, username);
    var ues := store.userEnrolments;
    var enrolled := (ue: UserEnrolment) => InCourse(store, course.id, user.id, ue);
    if First(ues, enrolled).None? then Err(InvalidParameter(NotEnrolled))
    else
      var suspended := FirstSuspended(store, course.id, user.id);
      if suspended.Some? then
        var ue := suspended.value;
        var plugin := EnrolById(store, ue.enrolId).value.enrol;
        if !env.pluginAvailable(plugin) then Err(InvalidParameter(PluginUnavailable(plugin)))
        else if !env.can(EnrolManage(plugin), CourseScope(course.id)) then Err(NoPermission(EnrolManage(plugin)))
        else
          var instance := EnrolById(store, ue.enrolId).value;
          Ok(Outcome(Reactivate(store, instance.id, user.id), Unsuspension(true, Some(1), Some(0))))
      else if First(ues, (ue: UserEnrolment) => InCourse(store, course.id, user.id, ue) && ue.status == 0).Some? then
        Ok(Outcome(store, Unsuspension(false, Some(0), Some(0))))
      else
        Ok(Outcome(store, Unsuspension(false, None, None)))
  }

  /** The database's unique index on (enrolid, userid). */
  predicate UniqueEnrolments(store: Store) {
    forall i, j :: 0 <= i < j < |store.userEnrolments| ==>
      store.userEnrolments[i].enrolId != store.userEnrolments[j].enrolId ||
      store.userEnrolments[i].userId != store.userEnrolments[j].userId
  }

  /** The user's suspended enrolments in the course. */
  function SuspendedCount(store: Store, courseId: int, userId: int): nat {
    Count(store.userEnrolments, (ue: UserEnrolment) => InCourse(store, courseId, userId, ue) && ue.status == 1)
  }

  /** The user's active enrolments in the course. */
  function ActiveCount(store: Store, courseId: int, userId: int): nat {
    Count(store.userEnrolments, (ue: UserEnrolment) => InCourse(store, courseId, userId, ue) && ue.status == 0)
  }

  /** Under the unique index the reinstated row is the given one. */
  lemma ReactivateAt(store: Store, userId: int, ue: UserEnrolment) returns (j: int)
    requires UniqueEnrolments(store)
    requires ue in store.userEnrolments && ue.userId == userId
    ensures 0 <= j < |store.userEnrolments| && store.userEnrolments[j] == ue
    ensures Reactivate(store, ue.enrolId, userId) ==
      store.(userEnrolments := store.userEnrolments[j := ue.(status := 0)])
  {
    var ues := store.userEnrolments;
    var k := FirstIndex(ues, (x: UserEnrolment) => x.enrolId == ue.enrolId && x.userId == userId);
    j :| 0 <= j < |ues| && ues[j] == ue;
    assert k == j;
  }

  /** Reinstating changes no enrolment method, so which enrolments belong to
      the course stays the same. */
  lemma SameMethods(store: Store, after: Store, courseId: int, userId: int)
    requires after.enrol == store.enrol
    ensures forall x :: InCourse(after, courseId, userId, x) == InCourse(store, courseId, userId, x)
  {
    forall x ensures InCourse(after, courseId, userId, x) == InCourse(store, courseId, userId, x) {
      assert EnrolById(after, x.enrolId) == EnrolById(store, x.enrolId);
    }
  }

  /** Reinstating a suspended enrolment of the user in the course turns
      exactly one suspended enrolment into an active one. */
  lemma ReactivateOne(store: Store, courseId: int, userId: int, ue: UserEnrolment)
    requires UniqueEnrolments(store)
    requires ue in store.userEnrolments && ue.userId == userId
    requires InCourse(store, courseId, userId, ue) && ue.status == 1
    ensures SuspendedCount(Reactivate(store, ue.enrolId, userId), courseId, userId) == SuspendedCount(store, courseId, userId) - 1
    ensures ActiveCount(Reactivate(store, ue.enrolId, userId), courseId, userId) == ActiveCount(store, courseId, userId) + 1
  {
    var j := ReactivateAt(store, userId, ue);
    var after := Reactivate(store, ue.enrolId, userId);
    var ues := store.userEnrolments;
    SameMethods(store, after, courseId, userId);
    var suspended := (x: UserEnrolment) => InCourse(store, courseId, userId, x) && x.status == 1;
    var active := (x: UserEnrolment) => InCourse(store, courseId, userId, x) && x.status == 0;
    CountUpdate(ues, j, ue.(status := 0), suspended);
    CountUpdate(ues, j, ue.(status := 0), active);
    CountSame(after.userEnrolments, suspended, (x: UserEnrolment) => InCourse(after, courseId, userId, x) && x.status == 1);
    CountSame(after.userEnrolments, active, (x: UserEnrolment) => InCourse(after, courseId, userId, x) && x.status == 0);
  }

  /** A successful unsuspension turns exactly one suspended enrolment of the
      user in the course into an active one. */
  lemma UnsuspendReinstatesOne(store: Store, env: Env, username: string, courseId: int)
    requires UniqueEnrolments(store)
    requires Unsuspend(store, env, username, courseId).Ok?
    requires Unsuspend(store, env, username, courseId).value.answer.success
    ensures var u := FetchUser(store, username).value;
      var after := Unsuspend(store, env, username, courseId).value.store;
      && SuspendedCount(after, courseId, u.id) == SuspendedCount(store, courseId, u.id) - 1
      && ActiveCount(after, courseId, u.id) == ActiveCount(store, courseId, u.id) + 1
  {
    var u := FetchUser(store, username).value;
    var ue := FirstSuspended(store, courseId, u.id).value;
    ReactivateOne(store, courseId, u.id, ue);
  }

  /** With active but no suspended enrolments the handler reports the
      active status and changes nothing. */
  lemma NothingToReinstate(store: Store, env: Env, username: string, courseId: int)
    requires FetchCourse(store, courseId).Ok? && FetchUser(store, username).Ok?
    requires SuspendedCount(store, courseId, FetchUser(store, username).value.id) == 0
    requires ActiveCount(store, courseId, FetchUser(store, username).value.id) > 0
    ensures Unsuspend(store, env, username, courseId) == Ok(Outcome(store, Unsuspension(false, Some(0), Some(0))))
  {
    var u := FetchUser(store, username).value;
    var active := (x: UserEnrolment) => InCourse(store, courseId, u.id, x) && x.status == 0;
    var enrolled := (x: UserEnrolment) => InCourse(store, courseId, u.id, x);
    var x := Filter(store.userEnrolments, active)[0];
    assert x in Filter(store.userEnrolments, enrolled);
  }

  /** When the reinstated enrolment was the only suspended one, asking again
      changes nothing and reports an active enrolment. */
  lemma UnsuspendTwice(store: Store, env: Env, username: string, courseId: int)
    requires UniqueEnrolments(store)
    requires Unsuspend(store, env, username, courseId).Ok?
    requires Unsuspend(store, env, username, courseId).value.answer.success
    requires SuspendedCount(store, courseId, FetchUser(store, username).value.id) == 1
    ensures var after := Unsuspend(store, env, username, courseId).value.store;
      Unsuspend(after, env, username, courseId) == Ok(Outcome(after, Unsuspension(false, Some(0), Some(0))))
  {
    var u := FetchUser(store, username).value;
    var after := Unsuspend(store, env, username, courseId).value.store;
    UnsuspendReinstatesOne(store, env, username, courseId);
    assert after == Reactivate(store, FirstSuspended(store, courseId, u.id).value.enrolId, u.id);
    assert FetchCourse(after, courseId) == FetchCourse(store, courseId);
    assert FetchUser(after, username) == FetchUser(store, username);
    NothingToReinstate(after, env, username, courseId);
  }
}
