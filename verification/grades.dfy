/** `get_grade_status`: the grade items of a course a user is graded on, each
    with the user's current final grade and the most recent earlier grade that
    differs from it. */
module Grades {
  import opened Platform
  import opened Seqs
  import opened Order
  import opened Text
  import opened Schema

  /** One entry of the answer. */
  datatype ItemStatus = ItemStatus(
    gradeItemId: int,
    itemName: string,
    itemType: string,
    itemModule: string,
    gradeMax: Option<real>,
    currentFinalGrade: Option<real>,
    wasModified: bool,
    lastModified: int,
    modifierUserId: Option<int>,
    previousFinalGrade: Option<real>)

  /** Two grades closer than this are the same grade. */
  const Tolerance: real := 0.001

  function Abs(x: real): (a: real)
    ensures a >= 0.0 && (a == x || a == -x)
  {
    if x < 0.0 then -x else x
  }

  /** PHP's `!empty` on a nullable integer column: set and not zero. */
  predicate Present(o: Option<int>) {
    o.Some? && o.value != 0
  }

  /** PHP's `?? ''` on a nullable text column. */
  function OrEmpty(o: Option<string>): string {
    if o.Some? then o.value else ""
  }

  // ---------------------------------------------------------------------
  // The history pick

  /** A history entry of this user's grade for this item that holds a value
      and, when there is a current grade, differs from it by more than the
      tolerance. */
  predicate Differs(e: HistoryEntry, itemId: int, userId: int, current: Option<real>) {
    && e.itemId == itemId
    && e.userId == userId
    && e.finalGrade.Some?
    && (current.None? || Abs(e.finalGrade.value - current.value) > Tolerance)
  }

  /** `a` comes no later than `b` under `ORDER BY timemodified DESC, id DESC`. */
  predicate NoOlder(a: HistoryEntry, b: HistoryEntry) {
    a.timeModified > b.timeModified || (a.timeModified == b.timeModified && a.id >= b.id)
  }

  /** `e` is a differing entry that no other differing entry comes before. */
  ghost predicate Latest(h: seq<HistoryEntry>, e: HistoryEntry, itemId: int, userId: int, current: Option<real>) {
    && e in h
    && Differs(e, itemId, userId, current)
    && forall e' :: e' in h && Differs(e', itemId, userId, current) ==> NoOlder(e, e')
  }

  /** The first row of the history query (`LIMIT 1`). */
  function LatestDiffering(h: seq<HistoryEntry>, itemId: int, userId: int, current: Option<real>): (r: Option<HistoryEntry>)
    ensures r.None? <==> forall e :: e in h ==> !Differs(e, itemId, userId, current)
    ensures r.Some? ==> Latest(h, r.value, itemId, userId, current)
  {
    if |h| == 0 then None
    else
      var rest := LatestDiffering(h[1..], itemId, userId, current);
      assert forall e :: e in h <==> e == h[0] || e in h[1..];
      if !Differs(h[0], itemId, userId, current) then rest
      else if rest.None? || NoOlder(h[0], rest.value) then Some(h[0])
      else rest
  }

  /** Who made the change: `usermodified` when present, else `loggeduser`. */
  function ModifierOf(e: HistoryEntry): (m: Option<int>)
    ensures Present(e.userModified) ==> m == e.userModified
    ensures !Present(e.userModified) && Present(e.loggedUser) ==> m == e.loggedUser
    ensures m.None? <==> !Present(e.userModified) && !Present(e.loggedUser)
  {
    if Present(e.userModified) then e.userModified
    else if Present(e.loggedUser) then e.loggedUser
    else None
  }

  // ---------------------------------------------------------------------
  // One grade item

  /** The user's grade row for the item (`IGNORE_MISSING`: the first one). */
  function GradeRow(store: Store, itemId: int, userId: int): (g: Option<Grade>)
    ensures g.None? <==> forall x :: x in store.grades ==> x.itemId != itemId || x.userId != userId
    ensures g.Some? ==> g.value in store.grades && g.value.itemId == itemId && g.value.userId == userId
  {
    First(store.grades, (x: Grade) => x.itemId == itemId && x.userId == userId)
  }

  /** `get_grade_item_status`. */
  function GradeItemStatus(store: Store, item: GradeItem, userId: int): (s: ItemStatus)
    ensures s.gradeItemId == item.id && s.itemType == item.itemType
    ensures s.itemName == OrEmpty(item.itemName) && s.itemModule == OrEmpty(item.itemModule)
    ensures s.gradeMax == item.gradeMax
    // without a grade row every reported field keeps its default
    ensures GradeRow(store, item.id, userId).None? ==>
      && s.currentFinalGrade.None?
      && !s.wasModified
      && s.lastModified == 0
      && s.modifierUserId.None?
      && s.previousFinalGrade.None?
    ensures GradeRow(store, item.id, userId).Some? ==>
      var g := GradeRow(store, item.id, userId).value;
      && s.currentFinalGrade == g.finalGrade
      && (s.wasModified <==> exists e :: e in store.history && Differs(e, item.id, userId, g.finalGrade))
      && (!s.wasModified ==>
            s.lastModified == g.timeModified && s.previousFinalGrade.None? && s.modifierUserId.None?)
      && (s.wasModified ==>
            exists e :: (Latest(store.history, e, item.id, userId, g.finalGrade) &&
                         s.lastModified == e.timeModified && s.previousFinalGrade == e.finalGrade &&
                         s.modifierUserId == ModifierOf(e)))
  {
    var base := ItemStatus(item.id, OrEmpty(item.itemName), item.itemType, OrEmpty(item.itemModule),
                           item.gradeMax, None, false, 0, None, None);
    var g := GradeRow(store, item.id, userId);
    if g.None? then base
    else
      var current := g.value.finalGrade;
      var latest := LatestDiffering(store.history, item.id, userId, current);
      if latest.None? then base.(currentFinalGrade := current, lastModified := g.value.timeModified)
      else
        var e := latest.value;
        base.(currentFinalGrade := current, wasModified := true, lastModified := e.timeModified,
              modifierUserId := ModifierOf(e), previousFinalGrade := e.finalGrade)
  }

  /** A grade whose every earlier value lies within the tolerance of the
      current one was not modified, and reports its own modification time. */
  lemma CloseValuesAreNoChange(store: Store, item: GradeItem, userId: int, g: Grade)
    requires GradeRow(store, item.id, userId) == Some(g) && g.finalGrade.Some?
    requires forall e :: e in store.history && e.itemId == item.id && e.userId == userId && e.finalGrade.Some? ==>
      Abs(e.finalGrade.value - g.finalGrade.value) <= Tolerance
    ensures !GradeItemStatus(store, item, userId).wasModified
    ensures GradeItemStatus(store, item, userId).lastModified == g.timeModified
  {
  }

  // ---------------------------------------------------------------------
  // Item selection

  /** The item-selection query: items of the course that are not hidden, and
      either the one requested item or every item but the course total. */
  predicate Selected(item: GradeItem, courseId: int, gradeItemId: int) {
    && item.courseId == courseId
    && item.hidden == 0
    && (if gradeItemId > 0 then item.id == gradeItemId else item.itemType != "course")
  }

  predicate ItemIdLe(a: GradeItem, b: GradeItem) {
    a.id <= b.id
  }

  predicate StatusIdLe(a: ItemStatus, b: ItemStatus) {
    a.gradeItemId <= b.gradeItemId
  }

  lemma ItemIdOrder()
    ensures TotalPreorder(ItemIdLe)
  {
  }

  /** The selection query's condition as a row predicate. */
  function Selection(courseId: int, gradeItemId: int): GradeItem -> bool {
    (it: GradeItem) => Selected(it, courseId, gradeItemId)
  }

  /** The selected items in ascending id order, each row once. */
  function SelectedItems(store: Store, courseId: int, gradeItemId: int): (r: seq<GradeItem>)
    ensures SortedBy(r, ItemIdLe)
    ensures forall it :: it in r <==> it in store.gradeItems && Selected(it, courseId, gradeItemId)
    ensures multiset(r) == multiset(Filter(store.gradeItems, Selection(courseId, gradeItemId)))
    ensures |r| == Count(store.gradeItems, Selection(courseId, gradeItemId))
  {
    ItemIdOrder();
    var picked := Filter(store.gradeItems, Selection(courseId, gradeItemId));
    var r := SortBy(picked, ItemIdLe);
    assert forall it :: it in r <==> it in picked by {
      forall it ensures it in r <==> it in picked {
        SortByMembers(picked, ItemIdLe, it);
      }
    }
    r
  }

  /** An activity item names a module and an instance (PHP's `!empty` on
      both), so its activity must still exist. */
  predicate NeedsActivity(item: GradeItem) {
    && item.itemType == "mod"
    && item.itemModule.Some? && !IsBlank(item.itemModule.value)
    && Present(item.itemInstance)
  }

  /** Whether the item is reported: `Ok(false)` skips an item whose activity
      was deleted, an error is raised by the existence check. */
  function Reported(store: Store, item: GradeItem): (r: Result<bool>)
    ensures !NeedsActivity(item) ==> r == Ok(true)
    ensures NeedsActivity(item) ==> r == ActivityExists(store, item.itemModule.value, item.itemInstance.value)
  {
    if NeedsActivity(item) then ActivityExists(store, item.itemModule.value, item.itemInstance.value)
    else Ok(true)
  }

  /** The items the report lists: those whose check passes and keeps them. */
  function Shown(store: Store): GradeItem -> bool {
    (it: GradeItem) => Reported(store, it) == Ok(true)
  }

  /** The loop over the selected items. */
  function ItemStatuses(store: Store, items: seq<GradeItem>, userId: int): Result<seq<ItemStatus>> {
    if |items| == 0 then Ok([])
    else
      var keep :- Reported(store, items[0]);
      var rest :- ItemStatuses(store, items[1..], userId);
      Ok((if keep then [GradeItemStatus(store, items[0], userId)] else []) + rest)
  }

  /** The loop fails exactly when an existence check fails, and then with the
      first failing check's error. */
  lemma {:induction false} ItemStatusesFails(store: Store, items: seq<GradeItem>, userId: int)
    ensures ItemStatuses(store, items, userId).Ok? <==>
      forall k :: 0 <= k < |items| ==> Reported(store, items[k]).Ok?
    ensures ItemStatuses(store, items, userId).Err? ==>
      exists k :: 0 <= k < |items| && Reported(store, items[k]) == Err(ItemStatuses(store, items, userId).error) &&
        forall j :: 0 <= j < k ==> Reported(store, items[j]).Ok?
    decreases |items|
  {
    if |items| > 0 {
      ItemStatusesFails(store, items[1..], userId);
      var r := ItemStatuses(store, items, userId);
      if Reported(store, items[0]).Ok? && r.Err? {
        var k :| 0 <= k < |items[1..]| && Reported(store, items[1..][k]) == Err(r.error) &&
          forall j :: 0 <= j < k ==> Reported(store, items[1..][j]).Ok?;
        assert items[k + 1] == items[1..][k];
        forall j | 0 <= j < k + 1 ensures Reported(store, items[j]).Ok? {
          if j > 0 { assert items[j] == items[1..][j - 1]; }
        }
      }
      if forall k :: 0 <= k < |items[1..]| ==> Reported(store, items[1..][k]).Ok? {
        forall k | 0 <= k < |items| ensures Reported(store, items[k]).Ok? || k == 0 {
          if k > 0 { assert items[k] == items[1..][k - 1]; }
        }
      }
    }
  }

  /** A successful loop reports exactly the items that pass their check. */
  lemma {:induction false} ItemStatusesMembers(store: Store, items: seq<GradeItem>, userId: int, s: ItemStatus)
    requires ItemStatuses(store, items, userId).Ok?
    ensures s in ItemStatuses(store, items, userId).value <==>
      exists it :: it in items && Reported(store, it) == Ok(true) && s == GradeItemStatus(store, it, userId)
    decreases |items|
  {
    if |items| > 0 {
      ItemStatusesMembers(store, items[1..], userId, s);
      assert forall it :: it in items <==> it == items[0] || it in items[1..];
    }
  }

  /** A successful loop gives one answer per item it keeps. */
  lemma {:induction false} ItemStatusesCount(store: Store, items: seq<GradeItem>, userId: int)
    requires ItemStatuses(store, items, userId).Ok?
    ensures |ItemStatuses(store, items, userId).value| == Count(items, Shown(store))
    decreases |items|
  {
    if |items| > 0 {
      ItemStatusesCount(store, items[1..], userId);
    }
  }

  /** Items in id order give answers in id order. */
  lemma {:induction false} ItemStatusesSorted(store: Store, items: seq<GradeItem>, userId: int)
    requires ItemStatuses(store, items, userId).Ok?
    requires SortedBy(items, ItemIdLe)
    ensures SortedBy(ItemStatuses(store, items, userId).value, StatusIdLe)
    ensures |ItemStatuses(store, items, userId).value| <= |items|
    decreases |items|
  {
    if |items| > 0 {
      var rest := ItemStatuses(store, items[1..], userId).value;
      ItemStatusesSorted(store, items[1..], userId);
      forall s | s in rest ensures items[0].id <= s.gradeItemId {
        ItemStatusesMembers(store, items[1..], userId, s);
        var it :| it in items[1..] && Reported(store, it) == Ok(true) && s == GradeItemStatus(store, it, userId);
        var k :| 0 <= k < |items[1..]| && items[1..][k] == it;
        assert items[k + 1] == it;
      }
    }
  }

  /** `get_grade_status`: the course, then the user, then the capability
      (`grade:view` for one's own grades, `grade:viewall` for another's),
      then the report. */
  function GradeStatus(store: Store, env: Env, username: string, courseId: int, gradeItemId: int): (r: Result<seq<ItemStatus>>)
    ensures FetchCourse(store, courseId).Err? ==> r == Err(RecordMissing("course"))
    ensures FetchCourse(store, courseId).Ok? && FetchUser(store, username).Err? ==>
      r == Err(FetchUser(store, username).error)
    ensures FetchCourse(store, courseId).Ok? && FetchUser(store, username).Ok? ==>
      var u := FetchUser(store, username).value;
      var cap := if env.callerId == u.id then GradeView else GradeViewAll;
      var items := SelectedItems(store, courseId, gradeItemId);
      && (!env.can(cap, CourseScope(courseId)) ==> r == Err(NoPermission(cap)))
      && (r.Ok? ==> env.can(cap, CourseScope(courseId)))
      // with the capability, the report fails exactly when an existence check
      // fails, and then with the error of the first failing item in id order
      && (env.can(cap, CourseScope(courseId)) ==>
            (r.Ok? <==> forall it :: it in items ==> Reported(store, it).Ok?))
      && (env.can(cap, CourseScope(courseId)) && r.Err? ==>
            exists k :: 0 <= k < |items| && Reported(store, items[k]) == Err(r.error) &&
              forall j :: 0 <= j < k ==> Reported(store, items[j]).Ok?)
      // one status per selected item that is kept
      && (r.Ok? ==> |r.value| == Count(items, Shown(store)))
    ensures r.Err? ==> r.error.RecordMissing? || r.error.MultipleRecords? || r.error.NoPermission? || r.error.ReadFailed?
    ensures r.Ok? ==> SortedBy(r.value, StatusIdLe)
    ensures r.Ok? ==> forall s :: s in r.value <==>
      exists it :: it in store.gradeItems && Selected(it, courseId, gradeItemId) && Reported(store, it) == Ok(true) &&
        s == GradeItemStatus(store, it, FetchUser(store, username).value.id)
  {
    var course :- FetchCourse(store, courseId);
    var user :- FetchUser(store, username);
    var cap := if env.callerId == user.id then GradeView else GradeViewAll;
    if !env.can(cap, CourseScope(course.id)) then Err(NoPermission(cap))
    else
      Report(store, course.id, gradeItemId, user.id)
  }

  /** The report on the selected items once the caller may see them. */
  function Report(store: Store, courseId: int, gradeItemId: int, userId: int): (r: Result<seq<ItemStatus>>)
    ensures var items := SelectedItems(store, courseId, gradeItemId);
      && (r.Ok? <==> forall it :: it in items ==> Reported(store, it).Ok?)
      && (r.Err? ==>
            exists k :: 0 <= k < |items| && Reported(store, items[k]) == Err(r.error) &&
              forall j :: 0 <= j < k ==> Reported(store, items[j]).Ok?)
    ensures r.Ok? ==> SortedBy(r.value, StatusIdLe)
    ensures r.Ok? ==> |r.value| == Count(SelectedItems(store, courseId, gradeItemId), Shown(store))
    ensures r.Ok? ==> forall s :: s in r.value <==>
      exists it :: it in store.gradeItems && Selected(it, courseId, gradeItemId) && Reported(store, it) == Ok(true) &&
        s == GradeItemStatus(store, it, userId)
  {
    ReportFacts(store, courseId, gradeItemId, userId);
    ItemStatuses(store, SelectedItems(store, courseId, gradeItemId), userId)
  }

  /** What the loop over the selected items yields. */
  lemma ReportFacts(store: Store, courseId: int, gradeItemId: int, userId: int)
    ensures var items := SelectedItems(store, courseId, gradeItemId);
      var r := ItemStatuses(store, items, userId);
      && (r.Ok? <==> forall it :: it in items ==> Reported(store, it).Ok?)
      && (r.Err? ==>
            exists k :: 0 <= k < |items| && Reported(store, items[k]) == Err(r.error) &&
              forall j :: 0 <= j < k ==> Reported(store, items[j]).Ok?)
      && (r.Ok? ==> SortedBy(r.value, StatusIdLe))
      && (r.Ok? ==> |r.value| == Count(items, Shown(store)))
      && (r.Ok? ==> forall s :: s in r.value <==>
            exists it :: it in store.gradeItems && Selected(it, courseId, gradeItemId) && Reported(store, it) == Ok(true) &&
              s == GradeItemStatus(store, it, userId))
  {
    var items := SelectedItems(store, courseId, gradeItemId);
    var r := ItemStatuses(store, items, userId);
    ItemStatusesFails(store, items, userId);
    assert (forall it :: it in items ==> Reported(store, it).Ok?) <==>
           (forall k :: 0 <= k < |items| ==> Reported(store, items[k]).Ok?);
    if r.Ok? {
      ItemStatusesSorted(store, items, userId);
      ItemStatusesCount(store, items, userId);
      forall s ensures s in r.value <==>
        exists it :: it in store.gradeItems && Selected(it, courseId, gradeItemId) && Reported(store, it) == Ok(true) &&
          s == GradeItemStatus(store, it, userId)
      {
        ItemStatusesMembers(store, items, userId, s);
      }
    }
  }
}
