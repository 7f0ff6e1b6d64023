/** The due-date queries: Turnitin assignment parts and native assignments due
    in a date range, in courses named by a list of course names. */
module Assignments {
  import opened Platform
  import opened Seqs
  import opened Order
  import opened Text
  import opened Schema

  /** A timestamp as shown to the caller: rendered when it is set, empty
      otherwise. */
  function FormatDate(env: Env, t: int): (s: string)
    ensures t <= 0 ==> s == []
    ensures t > 0 ==> s == env.renderDate(t)
    ensures RendersDates(env) ==> (s == [] <==> t <= 0)
  {
    if t > 0 then env.renderDate(t) else []
  }

  /** Whether submissions are accepted at `now`: submissions start open and
      are closed by a cutoff date in the past or an opening date in the
      future, a date of 0 or less being unset. */
  function SubmissionsOpen(now: int, cutoff: int, from: int): (open: bool) {
    var open := true;
    var open := if cutoff > 0 && now > cutoff then false else open;
    var open := if from > 0 && now < from then false else open;
    open
  }

  /** The two closing conditions are all there is to it. */
  lemma SubmissionsOpenExactly(now: int, cutoff: int, from: int)
    ensures SubmissionsOpen(now, cutoff, from) <==> (cutoff <= 0 || now <= cutoff) && (from <= 0 || now >= from)
  {
  }

  /** Removing the cutoff date never closes submissions, and a cutoff date in
      the past always does. */
  lemma CutoffEffect(now: int, cutoff: int, from: int)
    ensures SubmissionsOpen(now, cutoff, from) ==> SubmissionsOpen(now, 0, from)
    ensures 0 < cutoff < now ==> !SubmissionsOpen(now, cutoff, from)
  {
  }

  /** The course filter of both queries: the course's shortname is one of the
      tokens, or one of them occurs in its fullname ignoring case. */
  predicate CourseMatches(c: Course, tokens: seq<string>) {
    exists k :: 0 <= k < |tokens| && (c.shortname == tokens[k] || ContainsIgnoringCase(c.fullname, tokens[k]))
  }

  /** The checks both queries make before reading any data: the capability at
      system level, a non-empty list of names, and an ordered range. */
  function CheckQuery(env: Env, names: seq<string>, start: int, end: int): (r: Result<()>)
    ensures r.Ok? <==> env.can(CourseView, SystemScope) && |names| > 0 && start <= end
    ensures !env.can(CourseView, SystemScope) ==> r == Err(NoPermission(CourseView))
    ensures env.can(CourseView, SystemScope) && |names| == 0 ==> r == Err(InvalidParameter(NoCourseNames))
    ensures env.can(CourseView, SystemScope) && |names| > 0 && start > end ==> r == Err(InvalidParameter(InvertedRange))
  {
    if !env.can(CourseView, SystemScope) then Err(NoPermission(CourseView))
    else if |names| == 0 then Err(InvalidParameter(NoCourseNames))
    else if start > end then Err(InvalidParameter(InvertedRange))
    else Ok(())
  }

  // ---------------------------------------------------------------------
  // get_turnitin_assignments

  /** One entry of `get_turnitin_assignments`. */
  datatype TurnitinRow = TurnitinRow(
    partId: int,
    assignmentId: int,
    assignmentName: string,
    partName: string,
    tiiAssignId: int,
    courseId: int,
    courseShortname: string,
    courseFullname: string,
    dueDate: int,
    dueDateFormatted: string,
    allowLate: bool,
    reportGenSpeed: int)

  /** The row a part contributes: its Turnitin assignment and course exist,
      it is due in the range, and its course matches a token. */
  function TurnitinRowOf(store: Store, env: Env, tokens: seq<string>, start: int, end: int, p: TurnitinPart): (r: Option<TurnitinRow>)
    ensures r.Some? <==>
      && ToolById(store, p.toolId).Some?
      && CourseById(store, ToolById(store, p.toolId).value.course).Some?
      && start <= p.dtDue <= end
      && CourseMatches(CourseById(store, ToolById(store, p.toolId).value.course).value, tokens)
    ensures r.Some? ==>
      var t := ToolById(store, p.toolId).value;
      var c := CourseById(store, t.course).value;
      && r.value.partId == p.id
      && r.value.assignmentId == p.toolId
      && r.value.assignmentName == t.name
      && r.value.partName == p.partName
      && r.value.tiiAssignId == p.tiiAssignId
      && r.value.courseId == t.course
      && r.value.courseShortname == c.shortname
      && r.value.courseFullname == c.fullname
      && r.value.dueDate == p.dtDue
      && r.value.dueDateFormatted == FormatDate(env, p.dtDue)
      && (r.value.allowLate <==> p.allowLate == 1)
      && r.value.reportGenSpeed == p.reportGenSpeed
  {
    var t := ToolById(store, p.toolId);
    if t.None? then None
    else
      var c := CourseById(store, t.value.course);
      if c.None? || !(start <= p.dtDue <= end) || !CourseMatches(c.value, tokens) then None
      else
        Some(TurnitinRow(p.id, t.value.id, t.value.name, p.partName, p.tiiAssignId, c.value.id,
                         c.value.shortname, c.value.fullname, p.dtDue, FormatDate(env, p.dtDue),
                         p.allowLate == 1, p.reportGenSpeed))
  }

  function TurnitinKey(x: TurnitinRow): SortKey {
    SortKey(x.dueDate, x.courseFullname, x.assignmentName)
  }

  predicate TurnitinLe(a: TurnitinRow, b: TurnitinRow) {
    KeyLe(TurnitinKey(a), TurnitinKey(b))
  }

  lemma TurnitinOrder()
    ensures TotalPreorder(TurnitinLe)
  {
    forall a: TurnitinRow, b: TurnitinRow ensures TurnitinLe(a, b) || TurnitinLe(b, a) {
      KeyLeTotal(TurnitinKey(a), TurnitinKey(b));
    }
    forall a: TurnitinRow, b: TurnitinRow, c: TurnitinRow | TurnitinLe(a, b) && TurnitinLe(b, c)
      ensures TurnitinLe(a, c)
    {
      KeyLeTrans(TurnitinKey(a), TurnitinKey(b), TurnitinKey(c));
    }
  }

  /** The join of the parts with their assignments and courses, in table
      order: one row per part that contributes one. */
  function TurnitinRows(store: Store, env: Env, tokens: seq<string>, start: int, end: int): (rows: seq<TurnitinRow>)
    ensures |rows| == Count(store.turnitinParts, PartListed(store, env, tokens, start, end))
    ensures forall x :: x in rows <==>
      exists p :: p in store.turnitinParts && TurnitinRowOf(store, env, tokens, start, end, p) == Some(x)
  {
    var f := (p: TurnitinPart) => TurnitinRowOf(store, env, tokens, start, end, p);
    CollectCount(store.turnitinParts, f, PartListed(store, env, tokens, start, end));
    Collect(store.turnitinParts, f)
  }

  /** The part contributes a row. */
  function PartListed(store: Store, env: Env, tokens: seq<string>, start: int, end: int): TurnitinPart -> bool {
    (p: TurnitinPart) => TurnitinRowOf(store, env, tokens, start, end, p).Some?
  }

  /** `get_turnitin_assignments`. */
  function TurnitinAssignments(store: Store, env: Env, names: seq<string>, start: int, end: int): (r: Result<seq<TurnitinRow>>)
    ensures CheckQuery(env, names, start, end).Err? ==> r == Err(CheckQuery(env, names, start, end).error)
    ensures CheckQuery(env, names, start, end).Ok? ==> r.Ok?
    ensures r.Ok? && |NameTokens(names)| == 0 ==> r.value == []
    ensures r.Ok? ==> SortedBy(r.value, TurnitinLe)
    ensures r.Ok? ==> forall x :: x in r.value <==>
      exists p :: p in store.turnitinParts && TurnitinRowOf(store, env, NameTokens(names), start, end, p) == Some(x)
    ensures r.Ok? && |NameTokens(names)| > 0 ==>
      multiset(r.value) == multiset(TurnitinRows(store, env, NameTokens(names), start, end))
    ensures r.Ok? && |NameTokens(names)| > 0 ==>
      |r.value| == Count(store.turnitinParts, PartListed(store, env, NameTokens(names), start, end))
  {
    var _ :- CheckQuery(env, names, start, end);
    var tokens := NameTokens(names);
    if |tokens| == 0 then Ok([])
    else
      var rows := TurnitinRows(store, env, tokens, start, end);
      TurnitinOrder();
      var r := SortBy(rows, TurnitinLe);
      assert forall x :: x in r <==> x in rows by {
        forall x ensures x in r <==> x in rows {
          SortByMembers(rows, TurnitinLe, x);
        }
      }
      Ok(r)
  }

  /** One of the raw course names, trimmed and not rejected by PHP's
      `empty`, is the course's shortname or occurs in its fullname ignoring
      case. */
  ghost predicate NamedCourse(names: seq<string>, c: Course) {
    exists i :: 0 <= i < |names| && !IsBlank(Trim(names[i])) &&
      (c.shortname == Trim(names[i]) || ContainsIgnoringCase(c.fullname, Trim(names[i])))
  }

  /** Matching against the name tokens is matching against the raw names as
      the handler's loop reads them. */
  lemma CourseNamed(names: seq<string>, c: Course)
    ensures CourseMatches(c, NameTokens(names)) <==> NamedCourse(names, c)
  {
    var tokens := NameTokens(names);
    if CourseMatches(c, tokens) {
      var k :| 0 <= k < |tokens| && (c.shortname == tokens[k] || ContainsIgnoringCase(c.fullname, tokens[k]));
      assert tokens[k] in tokens;
      var i :| 0 <= i < |names| && tokens[k] == Trim(names[i]) && !IsBlank(tokens[k]);
    }
    if NamedCourse(names, c) {
      var i :| 0 <= i < |names| && !IsBlank(Trim(names[i])) &&
        (c.shortname == Trim(names[i]) || ContainsIgnoringCase(c.fullname, Trim(names[i])));
      assert NamedIn(names, Trim(names[i]));
      var k :| 0 <= k < |tokens| && tokens[k] == Trim(names[i]);
    }
  }

  /** A part whose Turnitin assignment and course exist is listed exactly
      when it is due in the range and its course is named in the list. */
  lemma TurnitinListed(store: Store, env: Env, names: seq<string>, start: int, end: int, p: TurnitinPart)
    requires TurnitinAssignments(store, env, names, start, end).Ok?
    requires p in store.turnitinParts
    requires ToolById(store, p.toolId).Some? && CourseById(store, ToolById(store, p.toolId).value.course).Some?
    ensures TurnitinRowOf(store, env, NameTokens(names), start, end, p).Some? <==>
      start <= p.dtDue <= end && NamedCourse(names, CourseById(store, ToolById(store, p.toolId).value.course).value)
    ensures TurnitinRowOf(store, env, NameTokens(names), start, end, p).Some? ==>
      TurnitinRowOf(store, env, NameTokens(names), start, end, p).value in TurnitinAssignments(store, env, names, start, end).value
  {
    CourseNamed(names, CourseById(store, ToolById(store, p.toolId).value.course).value);
  }

  // ---------------------------------------------------------------------
  // get_assignments

  /** One entry of `get_assignments`. */
  datatype AssignmentRow = AssignmentRow(
    assignmentId: int,
    assignmentName: string,
    courseId: int,
    courseShortname: string,
    courseFullname: string,
    cmId: int,
    visible: bool,
    dueDate: int,
    dueDateFormatted: string,
    cutoffDate: int,
    cutoffDateFormatted: string,
    allowSubmissionsFromDate: int,
    allowSubmissionsFromDateFormatted: string,
    gradeMax: real,
    submissionsOpen: bool)

  /** The row an assignment and one of its course modules contribute: the
      course exists, the module is an `assign` module of that course for this
      instance and is not being deleted, the assignment is due in the range
      and its course matches a token. */
  function AssignmentRowOf(store: Store, env: Env, tokens: seq<string>, start: int, end: int,
                           a: Assignment, cm: CourseModule): (r: Option<AssignmentRow>)
    ensures r.Some? <==>
      && CourseById(store, a.course).Some?
      && cm.course == a.course && cm.instance == a.id
      && ModuleById(store, cm.moduleId).Some? && ModuleById(store, cm.moduleId).value.name == "assign"
      && cm.deletionInProgress == 0
      && start <= a.dueDate <= end
      && CourseMatches(CourseById(store, a.course).value, tokens)
    ensures r.Some? ==>
      var c := CourseById(store, a.course).value;
      && r.value.assignmentId == a.id
      && r.value.assignmentName == a.name
      && r.value.courseId == a.course
      && r.value.courseShortname == c.shortname
      && r.value.courseFullname == c.fullname
      && r.value.cmId == cm.id
      && (r.value.visible <==> cm.visible == 1)
      && r.value.dueDate == a.dueDate
      && r.value.cutoffDate == a.cutoffDate
      && r.value.allowSubmissionsFromDate == a.allowSubmissionsFromDate
      && r.value.dueDateFormatted == FormatDate(env, a.dueDate)
      && r.value.cutoffDateFormatted == FormatDate(env, a.cutoffDate)
      && r.value.allowSubmissionsFromDateFormatted == FormatDate(env, a.allowSubmissionsFromDate)
      && r.value.gradeMax == a.grade
      && r.value.submissionsOpen == SubmissionsOpen(env.now, a.cutoffDate, a.allowSubmissionsFromDate)
  {
    var c := CourseById(store, a.course);
    var m := ModuleById(store, cm.moduleId);
    if c.None? || cm.course != a.course || cm.instance != a.id || m.None? || m.value.name != "assign" ||
       cm.deletionInProgress != 0 || !(start <= a.dueDate <= end) || !CourseMatches(c.value, tokens)
    then None
    else
      Some(AssignmentRow(a.id, a.name, a.course, c.value.shortname, c.value.fullname, cm.id, cm.visible == 1,
                         a.dueDate, FormatDate(env, a.dueDate), a.cutoffDate, FormatDate(env, a.cutoffDate),
                         a.allowSubmissionsFromDate, FormatDate(env, a.allowSubmissionsFromDate), a.grade,
                         SubmissionsOpen(env.now, a.cutoffDate, a.allowSubmissionsFromDate)))
  }

  /** The `i`th assignment and the `j`th course module contribute a row. */
  predicate Contributes(store: Store, env: Env, tokens: seq<string>, start: int, end: int, i: int, j: int) {
    && 0 <= i < |store.assignments| && 0 <= j < |store.courseModules|
    && AssignmentRowOf(store, env, tokens, start, end, store.assignments[i], store.courseModules[j]).Some?
  }

  /** A row's sort key depends on the assignment alone, not on the course
      module. */
  lemma RowSortKey(store: Store, env: Env, tokens: seq<string>, start: int, end: int, a: Assignment, cm: CourseModule)
    requires AssignmentRowOf(store, env, tokens, start, end, a, cm).Some?
    ensures AssignmentSortKey(AssignmentRowOf(store, env, tokens, start, end, a, cm).value) ==
      SortKey(a.dueDate, CourseById(store, a.course).value.fullname, a.name)
  {
  }

  /** `x` is the row some assignment and course module contribute. */
  ghost predicate FromAssignment(store: Store, env: Env, tokens: seq<string>, start: int, end: int, x: AssignmentRow) {
    exists i, j :: 0 <= i < |store.assignments| && 0 <= j < |store.courseModules| &&
      AssignmentRowOf(store, env, tokens, start, end, store.assignments[i], store.courseModules[j]) == Some(x)
  }

  /** The joined rows, assignment by assignment. */
  function JoinRows(store: Store, env: Env, tokens: seq<string>, start: int, end: int): seq<AssignmentRow> {
    CollectPairs(store.assignments, store.courseModules,
                 (a: Assignment, cm: CourseModule) => AssignmentRowOf(store, env, tokens, start, end, a, cm))
  }

  lemma JoinRowsMembers(store: Store, env: Env, tokens: seq<string>, start: int, end: int, x: AssignmentRow)
    ensures x in JoinRows(store, env, tokens, start, end) <==> FromAssignment(store, env, tokens, start, end, x)
  {
    CollectPairsMembers(store.assignments, store.courseModules,
                        (a: Assignment, cm: CourseModule) => AssignmentRowOf(store, env, tokens, start, end, a, cm), x);
  }

  function AssignmentKey(x: AssignmentRow): int {
    x.assignmentId
  }

  function AssignmentSortKey(x: AssignmentRow): SortKey {
    SortKey(x.dueDate, x.courseFullname, x.assignmentName)
  }

  predicate AssignmentLe(a: AssignmentRow, b: AssignmentRow) {
    KeyLe(AssignmentSortKey(a), AssignmentSortKey(b))
  }

  lemma AssignmentOrder()
    ensures TotalPreorder(AssignmentLe)
  {
    forall a: AssignmentRow, b: AssignmentRow ensures AssignmentLe(a, b) || AssignmentLe(b, a) {
      KeyLeTotal(AssignmentSortKey(a), AssignmentSortKey(b));
    }
    forall a: AssignmentRow, b: AssignmentRow, c: AssignmentRow | AssignmentLe(a, b) && AssignmentLe(b, c)
      ensures AssignmentLe(a, c)
    {
      KeyLeTrans(AssignmentSortKey(a), AssignmentSortKey(b), AssignmentSortKey(c));
    }
  }

  /** The assignment table's primary key. */
  predicate UniqueAssignmentIds(store: Store) {
    forall i, j :: 0 <= i < j < |store.assignments| ==> store.assignments[i].id != store.assignments[j].id
  }

  /** The result of the assignment query: the joined rows in sort order,
      keyed by assignment id. */
  function AssignmentRows(store: Store, env: Env, tokens: seq<string>, start: int, end: int): (r: seq<AssignmentRow>)
    ensures DistinctKeys(r, AssignmentKey)
    ensures forall x :: x in r ==> FromAssignment(store, env, tokens, start, end, x)
    ensures forall i, j :: Contributes(store, env, tokens, start, end, i, j) ==>
      store.assignments[i].id in KeySet(r, AssignmentKey)
    ensures UniqueAssignmentIds(store) ==> SortedBy(r, AssignmentLe)
  {
    var rows := JoinRows(store, env, tokens, start, end);
    AssignmentOrder();
    var sorted := SortBy(rows, AssignmentLe);
    var r := Collapse(sorted, AssignmentKey);
    AssignmentRowsFacts(store, env, tokens, start, end, rows, sorted, r);
    r
  }

  lemma AssignmentRowsFacts(store: Store, env: Env, tokens: seq<string>, start: int, end: int,
                            rows: seq<AssignmentRow>, sorted: seq<AssignmentRow>, r: seq<AssignmentRow>)
    requires rows == JoinRows(store, env, tokens, start, end)
    requires TotalPreorder(AssignmentLe)
    requires sorted == SortBy(rows, AssignmentLe)
    requires r == Collapse(sorted, AssignmentKey)
    ensures forall x :: x in r ==> FromAssignment(store, env, tokens, start, end, x)
    ensures forall i, j :: Contributes(store, env, tokens, start, end, i, j) ==>
      store.assignments[i].id in KeySet(r, AssignmentKey)
    ensures UniqueAssignmentIds(store) ==> SortedBy(r, AssignmentLe)
  {
    forall x | x in r ensures FromAssignment(store, env, tokens, start, end, x) {
      var m :| 0 <= m < |r| && r[m] == x;
      assert LastWithKey(sorted, AssignmentKey, r[m]);
      SortByMembers(rows, AssignmentLe, x);
      JoinRowsMembers(store, env, tokens, start, end, x);
    }
    forall i, j | Contributes(store, env, tokens, start, end, i, j)
      ensures store.assignments[i].id in KeySet(r, AssignmentKey)
    {
      var x := AssignmentRowOf(store, env, tokens, start, end, store.assignments[i], store.courseModules[j]).value;
      JoinRowsMembers(store, env, tokens, start, end, x);
      SortByMembers(rows, AssignmentLe, x);
      var m :| 0 <= m < |sorted| && sorted[m] == x;
      assert AssignmentKey(sorted[m]) in KeySet(sorted, AssignmentKey);
    }
    if UniqueAssignmentIds(store) {
      SameAssignmentSameKey(store, env, tokens, start, end, rows, sorted);
      CollapseKeepsSorted(sorted, AssignmentKey, AssignmentLe);
    }
  }

  /** With unique assignment ids, two rows of the same assignment share their
      sort key. */
  lemma SameAssignmentSameKey(store: Store, env: Env, tokens: seq<string>, start: int, end: int,
                              rows: seq<AssignmentRow>, sorted: seq<AssignmentRow>)
    requires UniqueAssignmentIds(store)
    requires rows == JoinRows(store, env, tokens, start, end)
    requires TotalPreorder(AssignmentLe)
    requires sorted == SortBy(rows, AssignmentLe)
    ensures forall i, j :: 0 <= i < |sorted| && 0 <= j < |sorted| && AssignmentKey(sorted[i]) == AssignmentKey(sorted[j]) ==>
      AssignmentLe(sorted[i], sorted[j])
  {
    forall i, j | 0 <= i < |sorted| && 0 <= j < |sorted| && AssignmentKey(sorted[i]) == AssignmentKey(sorted[j])
      ensures AssignmentLe(sorted[i], sorted[j])
    {
      SortByMembers(rows, AssignmentLe, sorted[i]);
      SortByMembers(rows, AssignmentLe, sorted[j]);
      JoinRowsMembers(store, env, tokens, start, end, sorted[i]);
      JoinRowsMembers(store, env, tokens, start, end, sorted[j]);
      SameIdSameKey(store, env, tokens, start, end, sorted[i], sorted[j]);
    }
  }

  lemma SameIdSameKey(store: Store, env: Env, tokens: seq<string>, start: int, end: int, x: AssignmentRow, y: AssignmentRow)
    requires UniqueAssignmentIds(store)
    requires FromAssignment(store, env, tokens, start, end, x) && FromAssignment(store, env, tokens, start, end, y)
    requires x.assignmentId == y.assignmentId
    ensures AssignmentLe(x, y)
  {
    var p, j1 :| 0 <= p < |store.assignments| && 0 <= j1 < |store.courseModules| &&
      AssignmentRowOf(store, env, tokens, start, end, store.assignments[p], store.courseModules[j1]) == Some(x);
    var q, j2 :| 0 <= q < |store.assignments| && 0 <= j2 < |store.courseModules| &&
      AssignmentRowOf(store, env, tokens, start, end, store.assignments[q], store.courseModules[j2]) == Some(y);
    assert p == q;
    RowSortKey(store, env, tokens, start, end, store.assignments[p], store.courseModules[j1]);
    RowSortKey(store, env, tokens, start, end, store.assignments[q], store.courseModules[j2]);
    KeyLeRefl(AssignmentSortKey(x));
  }

  /** `get_assignments`. */
  function GetAssignments(store: Store, env: Env, names: seq<string>, start: int, end: int): (r: Result<seq<AssignmentRow>>)
    ensures CheckQuery(env, names, start, end).Err? ==> r == Err(CheckQuery(env, names, start, end).error)
    ensures CheckQuery(env, names, start, end).Ok? ==> r.Ok?
    ensures r.Ok? && |NameTokens(names)| == 0 ==> r.value == []
    ensures r.Ok? ==> DistinctKeys(r.value, AssignmentKey)
    ensures r.Ok? ==> forall x :: x in r.value ==> FromAssignment(store, env, NameTokens(names), start, end, x)
    ensures r.Ok? ==> forall i, j :: Contributes(store, env, NameTokens(names), start, end, i, j) ==>
      store.assignments[i].id in KeySet(r.value, AssignmentKey)
    ensures r.Ok? && UniqueAssignmentIds(store) ==> SortedBy(r.value, AssignmentLe)
  {
    var _ :- CheckQuery(env, names, start, end);
    var tokens := NameTokens(names);
    if |tokens| == 0 then Ok([])
    else Ok(AssignmentRows(store, env, tokens, start, end))
  }

  /** PHP's `empty` rejects the name "0", so asking for it lists nothing,
      even when a course has that shortname. */
  lemma ZeroNameListsNothing(store: Store, env: Env, start: int, end: int)
    requires env.can(CourseView, SystemScope) && start <= end
    ensures TurnitinAssignments(store, env, ["0"], start, end) == Ok([])
    ensures GetAssignments(store, env, ["0"], start, end) == Ok([])
  {
  }
}
