/** The four writing handlers: set whether a Turnitin part accepts late
    submissions, and set the cutoff date of a native assignment, each for one
    row (raising on a missing row or permission) and in bulk (counting
    successes and failures instead of raising). */
module Mutations {
  import opened Platform
  import opened Seqs
  import opened Schema
  import opened Assignments

  /** The answer of `toggle_turnitin_allowlate`. */
  datatype Toggled = Toggled(success: bool, partId: int, allowLate: bool)

  /** The answer of `set_assignment_cutoff`. */
  datatype CutoffSet = CutoffSet(success: bool, assignmentId: int, cutoffDate: int)

  /** The answer of both bulk handlers. */
  datatype BulkCounts = BulkCounts(success: nat, failed: nat, total: nat)

  // ---------------------------------------------------------------------
  // The rows the handlers write and the checks before a write

  /** The course of a part, read through its Turnitin assignment: the join of
      the part query, which finds nothing when either row is missing. */
  function PartCourse(store: Store, partId: int): (r: Option<int>)
    ensures r.Some? <==> PartById(store, partId).Some? && ToolById(store, PartById(store, partId).value.toolId).Some?
    ensures r.Some? ==> exists p, t ::
      p in store.turnitinParts && t in store.turnitinTools && p.id == partId && t.id == p.toolId && t.course == r.value
  {
    var p := PartById(store, partId);
    if p.None? then None
    else
      var t := ToolById(store, p.value.toolId);
      if t.None? then None else Some(t.value.course)
  }

  /** Whether a bulk run writes part `partId`: the part query finds it, its
      course has a context, and the caller may manage activities there. */
  predicate PartWritable(store: Store, env: Env, partId: int) {
    var c := PartCourse(store, partId);
    c.Some? && CourseById(store, c.value).Some? && env.can(ManageActivities, CourseScope(c.value))
  }

  /** Whether a bulk run writes assignment `id`. */
  predicate AssignmentWritable(store: Store, env: Env, id: int) {
    var a := AssignmentById(store, id);
    a.Some? && CourseById(store, a.value.course).Some? && env.can(ManageActivities, CourseScope(a.value.course))
  }

  /** `set_field('turnitintooltwo_parts', 'allowlate', v, ['id' => partId])`. */
  function SetAllowLate(store: Store, partId: int, v: int): (s: Store)
    ensures s == store.(turnitinParts := s.turnitinParts)
    ensures |s.turnitinParts| == |store.turnitinParts|
    ensures forall i :: 0 <= i < |store.turnitinParts| ==>
      s.turnitinParts[i] == if store.turnitinParts[i].id == partId then store.turnitinParts[i].(allowLate := v)
                            else store.turnitinParts[i]
  {
    store.(turnitinParts := SetWhere(store.turnitinParts, (p: TurnitinPart) => p.id, partId,
                                     (p: TurnitinPart) => p.(allowLate := v)))
  }

  /** `set_field('assign', 'cutoffdate', c, ['id' => id])`. */
  function SetCutoffDate(store: Store, id: int, c: int): (s: Store)
    ensures s == store.(assignments := s.assignments)
    ensures |s.assignments| == |store.assignments|
    ensures forall i :: 0 <= i < |store.assignments| ==>
      s.assignments[i] == if store.assignments[i].id == id then store.assignments[i].(cutoffDate := c)
                          else store.assignments[i]
  {
    store.(assignments := SetWhere(store.assignments, (a: Assignment) => a.id, id,
                                   (a: Assignment) => a.(cutoffDate := c)))
  }

  /** Writing `allowlate` changes neither which part rows exist nor where
      they lead, so it never changes what a later write may touch. */
  lemma AllowLateKeepsWritable(store: Store, env: Env, partId: int, v: int, id: int)
    ensures PartCourse(SetAllowLate(store, partId, v), id) == PartCourse(store, id)
    ensures PartWritable(SetAllowLate(store, partId, v), env, id) == PartWritable(store, env, id)
  {
    var s := SetAllowLate(store, partId, v);
    FirstIndexAgree(store.turnitinParts, s.turnitinParts, (p: TurnitinPart) => p.id == id);
  }

  /** Writing `cutoffdate` never changes what a later write may touch. */
  lemma CutoffKeepsWritable(store: Store, env: Env, assignmentId: int, c: int, id: int)
    ensures AssignmentById(SetCutoffDate(store, assignmentId, c), id).Some? == AssignmentById(store, id).Some?
    ensures AssignmentById(store, id).Some? ==>
      AssignmentById(SetCutoffDate(store, assignmentId, c), id).value.course == AssignmentById(store, id).value.course
    ensures AssignmentWritable(SetCutoffDate(store, assignmentId, c), env, id) == AssignmentWritable(store, env, id)
  {
    var s := SetCutoffDate(store, assignmentId, c);
    FirstIndexAgree(store.assignments, s.assignments, (a: Assignment) => a.id == id);
  }

  // ---------------------------------------------------------------------
  // The single-row handlers

  /** The part query with `MUST_EXIST`: the part's course, or an error. */
  function FetchPartCourse(store: Store, partId: int): (r: Result<int>)
    ensures r.Ok? <==> PartCourse(store, partId).Some?
    ensures r.Ok? ==> r.value == PartCourse(store, partId).value
    ensures r.Err? ==> r.error == RecordMissing("turnitintooltwo_parts")
  {
    var c := PartCourse(store, partId);
    if c.None? then Err(RecordMissing("turnitintooltwo_parts")) else Ok(c.value)
  }

  /** `toggle_turnitin_allowlate`. */
  function ToggleAllowLate(store: Store, env: Env, partId: int, allowLate: bool): (r: Result<Outcome<Toggled>>)
    ensures PartCourse(store, partId).None? ==> r == Err(RecordMissing("turnitintooltwo_parts"))
    ensures PartCourse(store, partId).Some? && CourseById(store, PartCourse(store, partId).value).None? ==>
      r == Err(ContextMissing(PartCourse(store, partId).value))
    ensures (PartCourse(store, partId).Some? && CourseById(store, PartCourse(store, partId).value).Some? &&
             !env.can(ManageActivities, CourseScope(PartCourse(store, partId).value))) ==>
      r == Err(NoPermission(ManageActivities))
    ensures r.Ok? <==> PartWritable(store, env, partId)
    ensures r.Ok? ==> r.value.answer == Toggled(true, partId, allowLate)
    ensures r.Ok? ==> r.value.store == SetAllowLate(store, partId, BoolToInt(allowLate))
  {
    var course :- FetchPartCourse(store, partId);
    var context :- CourseContext(store, course);
    if !env.can(ManageActivities, context) then Err(NoPermission(ManageActivities))
    else Ok(Outcome(SetAllowLate(store, partId, BoolToInt(allowLate)), Toggled(true, partId, allowLate)))
  }

  /** `get_record('assign', ..., MUST_EXIST)`: the assignment, or an error. */
  function FetchAssignment(store: Store, id: int): (r: Result<Assignment>)
    ensures r.Ok? <==> AssignmentById(store, id).Some?
    ensures r.Ok? ==> r.value == AssignmentById(store, id).value
    ensures r.Err? ==> r.error == RecordMissing("assign")
  {
    var a := AssignmentById(store, id);
    if a.None? then Err(RecordMissing("assign")) else Ok(a.value)
  }

  /** `set_assignment_cutoff`. */
  function SetCutoff(store: Store, env: Env, assignmentId: int, cutoffDate: int): (r: Result<Outcome<CutoffSet>>)
    ensures AssignmentById(store, assignmentId).None? ==> r == Err(RecordMissing("assign"))
    ensures AssignmentById(store, assignmentId).Some? && CourseById(store, AssignmentById(store, assignmentId).value.course).None? ==>
      r == Err(ContextMissing(AssignmentById(store, assignmentId).value.course))
    ensures (AssignmentById(store, assignmentId).Some? && CourseById(store, AssignmentById(store, assignmentId).value.course).Some? &&
             !env.can(ManageActivities, CourseScope(AssignmentById(store, assignmentId).value.course))) ==>
      r == Err(NoPermission(ManageActivities))
    ensures r.Ok? <==> AssignmentWritable(store, env, assignmentId)
    ensures r.Ok? ==> r.value.answer == CutoffSet(true, assignmentId, cutoffDate)
    ensures r.Ok? ==> r.value.store == SetCutoffDate(store, assignmentId, cutoffDate)
  {
    var a :- FetchAssignment(store, assignmentId);
    var context :- CourseContext(store, a.course);
    if !env.can(ManageActivities, context) then Err(NoPermission(ManageActivities))
    else Ok(Outcome(SetCutoffDate(store, assignmentId, cutoffDate), CutoffSet(true, assignmentId, cutoffDate)))
  }

  // ---------------------------------------------------------------------
  // The bulk loop, shared by both bulk handlers

  /** The database after a bulk run and its two counters. */
  datatype Tally = Tally(store: Store, success: nat, failed: nat)

  /** The loop of a bulk handler: for each listed id in turn, a write the
      caller may make is made and counted a success, and any other id (no
      row, no course context, no capability) is counted a failure. The
      check of each id reads the database as the earlier writes left it. */
  function BulkLoop(store: Store, ids: seq<int>, writable: (Store, int) -> bool, write: (Store, int) -> Store): (t: Tally)
    ensures t.success + t.failed == |ids|
    decreases |ids|
  {
    if |ids| == 0 then Tally(store, 0, 0)
    else if writable(store, ids[0]) then
      var t := BulkLoop(write(store, ids[0]), ids[1..], writable, write);
      Tally(t.store, t.success + 1, t.failed)
    else
      var t := BulkLoop(store, ids[1..], writable, write);
      Tally(t.store, t.success, t.failed + 1)
  }

  /** The listed ids the caller may write, in list order and with
      repetitions. */
  function Accepted(store: Store, ids: seq<int>, writable: (Store, int) -> bool): (r: seq<int>)
    ensures |r| <= |ids|
    ensures forall id :: id in r <==> id in ids && writable(store, id)
    decreases |ids|
  {
    if |ids| == 0 then []
    else (if writable(store, ids[0]) then [ids[0]] else []) + Accepted(store, ids[1..], writable)
  }

  /** Writes for each of `ids` in turn. */
  function WriteAll(store: Store, ids: seq<int>, write: (Store, int) -> Store): Store
    decreases |ids|
  {
    if |ids| == 0 then store else WriteAll(write(store, ids[0]), ids[1..], write)
  }

  /** No write changes what a later write may touch. */
  ghost predicate Independent(writable: (Store, int) -> bool, write: (Store, int) -> Store) {
    forall s, k, id :: writable(write(s, k), id) == writable(s, id)
  }

  /** When writes are independent, a bulk run counts and writes exactly the
      listed ids the caller may write in the database it started from. */
  lemma {:induction false} BulkLoopAccepted(store: Store, ids: seq<int>, writable: (Store, int) -> bool, write: (Store, int) -> Store)
    requires Independent(writable, write)
    ensures BulkLoop(store, ids, writable, write).success == |Accepted(store, ids, writable)|
    ensures BulkLoop(store, ids, writable, write).store == WriteAll(store, Accepted(store, ids, writable), write)
    decreases |ids|
  {
    if |ids| > 0 {
      if writable(store, ids[0]) {
        var next := write(store, ids[0]);
        forall id ensures writable(next, id) == writable(store, id) {
          var k := ids[0];
          assert writable(write(store, k), id) == writable(store, id);
        }
        BulkLoopAccepted(next, ids[1..], writable, write);
        AcceptedSame(store, next, ids[1..], writable);
        assert Accepted(store, ids, writable) == [ids[0]] + Accepted(store, ids[1..], writable);
      } else {
        BulkLoopAccepted(store, ids[1..], writable, write);
        assert Accepted(store, ids, writable) == Accepted(store, ids[1..], writable);
      }
    }
  }

  /** Two databases that agree on what may be written accept the same ids. */
  lemma {:induction false} AcceptedSame(s: Store, t: Store, ids: seq<int>, writable: (Store, int) -> bool)
    requires forall id :: writable(s, id) == writable(t, id)
    ensures Accepted(s, ids, writable) == Accepted(t, ids, writable)
    decreases |ids|
  {
    if |ids| > 0 {
      AcceptedSame(s, t, ids[1..], writable);
    }
  }

  // ---------------------------------------------------------------------
  // bulk_toggle_turnitin_allowlate

  function PartGate(env: Env): (Store, int) -> bool {
    (s: Store, id: int) => PartWritable(s, env, id)
  }

  function AllowLateWriter(v: int): (Store, int) -> Store {
    (s: Store, id: int) => SetAllowLate(s, id, v)
  }

  lemma AllowLateIndependent(env: Env, v: int)
    ensures Independent(PartGate(env), AllowLateWriter(v))
  {
    forall s, k, id ensures PartGate(env)(AllowLateWriter(v)(s, k), id) == PartGate(env)(s, id) {
      AllowLateKeepsWritable(s, env, k, v, id);
    }
  }

  /** Setting `allowlate` for each of `ids` sets it on exactly the parts whose
      id is among them and changes nothing else. */
  lemma {:induction false} WriteAllAllowLate(store: Store, ids: seq<int>, v: int)
    ensures WriteAll(store, ids, AllowLateWriter(v)) == store.(turnitinParts := WriteAll(store, ids, AllowLateWriter(v)).turnitinParts)
    ensures |WriteAll(store, ids, AllowLateWriter(v)).turnitinParts| == |store.turnitinParts|
    ensures forall i :: 0 <= i < |store.turnitinParts| ==>
      WriteAll(store, ids, AllowLateWriter(v)).turnitinParts[i] ==
        if store.turnitinParts[i].id in ids then store.turnitinParts[i].(allowLate := v) else store.turnitinParts[i]
    decreases |ids|
  {
    if |ids| > 0 {
      var next := SetAllowLate(store, ids[0], v);
      assert AllowLateWriter(v)(store, ids[0]) == next;
      WriteAllAllowLate(next, ids[1..], v);
      forall i | 0 <= i < |store.turnitinParts|
        ensures WriteAll(store, ids, AllowLateWriter(v)).turnitinParts[i] ==
          if store.turnitinParts[i].id in ids then store.turnitinParts[i].(allowLate := v) else store.turnitinParts[i]
      {
        assert store.turnitinParts[i].id in ids <==> store.turnitinParts[i].id == ids[0] || store.turnitinParts[i].id in ids[1..];
      }
    }
  }

  /** `bulk_toggle_turnitin_allowlate`. */
  function BulkToggleAllowLate(store: Store, env: Env, ids: seq<int>, allowLate: bool): (o: Outcome<BulkCounts>)
    ensures o.answer.total == |ids| && o.answer.success + o.answer.failed == |ids|
    ensures |ids| == 0 ==> o == Outcome(store, BulkCounts(0, 0, 0))
    ensures o.answer.success == |Accepted(store, ids, PartGate(env))|
    ensures o.store == store.(turnitinParts := o.store.turnitinParts)
    ensures |o.store.turnitinParts| == |store.turnitinParts|
    ensures forall i :: 0 <= i < |store.turnitinParts| ==>
      o.store.turnitinParts[i] ==
        if store.turnitinParts[i].id in ids && PartWritable(store, env, store.turnitinParts[i].id)
        then store.turnitinParts[i].(allowLate := BoolToInt(allowLate))
        else store.turnitinParts[i]
  {
    if |ids| == 0 then Outcome(store, BulkCounts(0, 0, 0))
    else
      var t := BulkLoop(store, ids, PartGate(env), AllowLateWriter(BoolToInt(allowLate)));
      AllowLateIndependent(env, BoolToInt(allowLate));
      BulkLoopAccepted(store, ids, PartGate(env), AllowLateWriter(BoolToInt(allowLate)));
      WriteAllAllowLate(store, Accepted(store, ids, PartGate(env)), BoolToInt(allowLate));
      Outcome(t.store, BulkCounts(t.success, t.failed, |ids|))
  }

  // ---------------------------------------------------------------------
  // bulk_set_assignment_cutoff

  function AssignmentGate(env: Env): (Store, int) -> bool {
    (s: Store, id: int) => AssignmentWritable(s, env, id)
  }

  function CutoffWriter(c: int): (Store, int) -> Store {
    (s: Store, id: int) => SetCutoffDate(s, id, c)
  }

  lemma CutoffIndependent(env: Env, c: int)
    ensures Independent(AssignmentGate(env), CutoffWriter(c))
  {
    forall s, k, id ensures AssignmentGate(env)(CutoffWriter(c)(s, k), id) == AssignmentGate(env)(s, id) {
      CutoffKeepsWritable(s, env, k, c, id);
    }
  }

  /** Setting the cutoff date for each of `ids` sets it on exactly the
      assignments whose id is among them and changes nothing else. */
  lemma {:induction false} WriteAllCutoff(store: Store, ids: seq<int>, c: int)
    ensures WriteAll(store, ids, CutoffWriter(c)) == store.(assignments := WriteAll(store, ids, CutoffWriter(c)).assignments)
    ensures |WriteAll(store, ids, CutoffWriter(c)).assignments| == |store.assignments|
    ensures forall i :: 0 <= i < |store.assignments| ==>
      WriteAll(store, ids, CutoffWriter(c)).assignments[i] ==
        if store.assignments[i].id in ids then store.assignments[i].(cutoffDate := c) else store.assignments[i]
    decreases |ids|
  {
    if |ids| > 0 {
      var next := SetCutoffDate(store, ids[0], c);
      assert CutoffWriter(c)(store, ids[0]) == next;
      WriteAllCutoff(next, ids[1..], c);
      forall i | 0 <= i < |store.assignments|
        ensures WriteAll(store, ids, CutoffWriter(c)).assignments[i] ==
          if store.assignments[i].id in ids then store.assignments[i].(cutoffDate := c) else store.assignments[i]
      {
        assert store.assignments[i].id in ids <==> store.assignments[i].id == ids[0] || store.assignments[i].id in ids[1..];
      }
    }
  }

  /** `bulk_set_assignment_cutoff`. */
  function BulkSetCutoff(store: Store, env: Env, ids: seq<int>, cutoffDate: int): (o: Outcome<BulkCounts>)
    ensures o.answer.total == |ids| && o.answer.success + o.answer.failed == |ids|
    ensures |ids| == 0 ==> o == Outcome(store, BulkCounts(0, 0, 0))
    ensures o.answer.success == |Accepted(store, ids, AssignmentGate(env))|
    ensures o.store == store.(assignments := o.store.assignments)
    ensures |o.store.assignments| == |store.assignments|
    ensures forall i :: 0 <= i < |store.assignments| ==>
      o.store.assignments[i] ==
        if store.assignments[i].id in ids && AssignmentWritable(store, env, store.assignments[i].id)
        then store.assignments[i].(cutoffDate := cutoffDate)
        else store.assignments[i]
  {
    if |ids| == 0 then Outcome(store, BulkCounts(0, 0, 0))
    else
      var t := BulkLoop(store, ids, AssignmentGate(env), CutoffWriter(cutoffDate));
      CutoffIndependent(env, cutoffDate);
      BulkLoopAccepted(store, ids, AssignmentGate(env), CutoffWriter(cutoffDate));
      WriteAllCutoff(store, Accepted(store, ids, AssignmentGate(env)), cutoffDate);
      Outcome(t.store, BulkCounts(t.success, t.failed, |ids|))
  }

  // ---------------------------------------------------------------------
  // How the handlers relate to each other

  /** A bulk toggle of one part does what the single toggle does, counting
      the single toggle's error as one failure. */
  lemma BulkToggleOfOne(store: Store, env: Env, partId: int, allowLate: bool)
    ensures var o := BulkToggleAllowLate(store, env, [partId], allowLate);
      var r := ToggleAllowLate(store, env, partId, allowLate);
      (r.Ok? ==> o == Outcome(r.value.store, BulkCounts(1, 0, 1))) &&
      (r.Err? ==> o == Outcome(store, BulkCounts(0, 1, 1)))
  {
    var o := BulkToggleAllowLate(store, env, [partId], allowLate);
    assert [partId][1..] == [];
    assert Accepted(store, [partId], PartGate(env)) == if PartWritable(store, env, partId) then [partId] else [];
    if !PartWritable(store, env, partId) {
      assert o.store.turnitinParts == store.turnitinParts;
    } else {
      assert o.store.turnitinParts == SetAllowLate(store, partId, BoolToInt(allowLate)).turnitinParts;
    }
  }

  /** A bulk cutoff for one assignment does what the single handler does,
      counting its error as one failure. */
  lemma BulkCutoffOfOne(store: Store, env: Env, assignmentId: int, cutoffDate: int)
    ensures var o := BulkSetCutoff(store, env, [assignmentId], cutoffDate);
      var r := SetCutoff(store, env, assignmentId, cutoffDate);
      (r.Ok? ==> o == Outcome(r.value.store, BulkCounts(1, 0, 1))) &&
      (r.Err? ==> o == Outcome(store, BulkCounts(0, 1, 1)))
  {
    var o := BulkSetCutoff(store, env, [assignmentId], cutoffDate);
    assert [assignmentId][1..] == [];
    assert Accepted(store, [assignmentId], AssignmentGate(env)) ==
      if AssignmentWritable(store, env, assignmentId) then [assignmentId] else [];
    if !AssignmentWritable(store, env, assignmentId) {
      assert o.store.assignments == store.assignments;
    } else {
      assert o.store.assignments == SetCutoffDate(store, assignmentId, cutoffDate).assignments;
    }
  }

  /** Toggling again with the same value succeeds and changes nothing more. */
  lemma ToggleTwice(store: Store, env: Env, partId: int, allowLate: bool)
    requires ToggleAllowLate(store, env, partId, allowLate).Ok?
    ensures var after := ToggleAllowLate(store, env, partId, allowLate).value.store;
      ToggleAllowLate(after, env, partId, allowLate) == Ok(Outcome(after, Toggled(true, partId, allowLate)))
  {
    var v := BoolToInt(allowLate);
    var after := SetAllowLate(store, partId, v);
    AllowLateKeepsWritable(store, env, partId, v, partId);
    assert SetAllowLate(after, partId, v).turnitinParts == after.turnitinParts;
  }

  /** Setting the same cutoff again succeeds and changes nothing more. */
  lemma CutoffTwice(store: Store, env: Env, assignmentId: int, cutoffDate: int)
    requires SetCutoff(store, env, assignmentId, cutoffDate).Ok?
    ensures var after := SetCutoff(store, env, assignmentId, cutoffDate).value.store;
      SetCutoff(after, env, assignmentId, cutoffDate) == Ok(Outcome(after, CutoffSet(true, assignmentId, cutoffDate)))
  {
    var after := SetCutoffDate(store, assignmentId, cutoffDate);
    CutoffKeepsWritable(store, env, assignmentId, cutoffDate, assignmentId);
    assert SetCutoffDate(after, assignmentId, cutoffDate).assignments == after.assignments;
  }

  /** Repeating a bulk toggle gives the same counts and changes nothing more. */
  lemma BulkToggleTwice(store: Store, env: Env, ids: seq<int>, allowLate: bool)
    ensures var first := BulkToggleAllowLate(store, env, ids, allowLate);
      BulkToggleAllowLate(first.store, env, ids, allowLate) == first
  {
    var first := BulkToggleAllowLate(store, env, ids, allowLate);
    var second := BulkToggleAllowLate(first.store, env, ids, allowLate);
    forall id ensures PartWritable(first.store, env, id) == PartWritable(store, env, id) {
      PartsSkeleton(store, first.store, env, id);
    }
    AcceptedSame(store, first.store, ids, PartGate(env));
    assert second.store.turnitinParts == first.store.turnitinParts;
  }

  /** Two databases whose parts differ at most in `allowlate` agree on what
      may be written. */
  lemma PartsSkeleton(s: Store, t: Store, env: Env, id: int)
    requires t == s.(turnitinParts := t.turnitinParts)
    requires |t.turnitinParts| == |s.turnitinParts|
    requires forall i :: 0 <= i < |s.turnitinParts| ==> t.turnitinParts[i].(allowLate := s.turnitinParts[i].allowLate) == s.turnitinParts[i]
    ensures PartWritable(t, env, id) == PartWritable(s, env, id)
  {
    forall i | 0 <= i < |s.turnitinParts| ensures s.turnitinParts[i].id == t.turnitinParts[i].id {
      assert t.turnitinParts[i].(allowLate := s.turnitinParts[i].allowLate).id == t.turnitinParts[i].id;
    }
    FirstIndexAgree(s.turnitinParts, t.turnitinParts, (p: TurnitinPart) => p.id == id);
    var k := FirstIndex(s.turnitinParts, (p: TurnitinPart) => p.id == id);
    if k >= 0 {
      assert t.turnitinParts[k].(allowLate := s.turnitinParts[k].allowLate).toolId == t.turnitinParts[k].toolId;
    }
  }

  /** Repeating a bulk cutoff gives the same counts and changes nothing more. */
  lemma BulkCutoffTwice(store: Store, env: Env, ids: seq<int>, cutoffDate: int)
    ensures var first := BulkSetCutoff(store, env, ids, cutoffDate);
      BulkSetCutoff(first.store, env, ids, cutoffDate) == first
  {
    var first := BulkSetCutoff(store, env, ids, cutoffDate);
    var second := BulkSetCutoff(first.store, env, ids, cutoffDate);
    forall id ensures AssignmentWritable(first.store, env, id) == AssignmentWritable(store, env, id) {
      AssignmentsSkeleton(store, first.store, env, id);
    }
    AcceptedSame(store, first.store, ids, AssignmentGate(env));
    assert second.store.assignments == first.store.assignments;
  }

  /** Two databases whose assignments differ at most in the cutoff date
      agree on what may be written. */
  lemma AssignmentsSkeleton(s: Store, t: Store, env: Env, id: int)
    requires t == s.(assignments := t.assignments)
    requires |t.assignments| == |s.assignments|
    requires forall i :: 0 <= i < |s.assignments| ==> t.assignments[i].(cutoffDate := s.assignments[i].cutoffDate) == s.assignments[i]
    ensures AssignmentWritable(t, env, id) == AssignmentWritable(s, env, id)
  {
    forall i | 0 <= i < |s.assignments| ensures s.assignments[i].id == t.assignments[i].id {
      assert t.assignments[i].(cutoffDate := s.assignments[i].cutoffDate).id == t.assignments[i].id;
    }
    FirstIndexAgree(s.assignments, t.assignments, (a: Assignment) => a.id == id);
    var k := FirstIndex(s.assignments, (a: Assignment) => a.id == id);
    if k >= 0 {
      assert t.assignments[k].(cutoffDate := s.assignments[k].cutoffDate).course == t.assignments[k].course;
    }
  }

  /** After a toggle, the Turnitin query lists the same parts as before, and
      a toggled part reports the new flag. */
  lemma ToggleSeenByQuery(store: Store, env: Env, partId: int, allowLate: bool,
                          tokens: seq<string>, start: int, end: int, i: int)
    requires ToggleAllowLate(store, env, partId, allowLate).Ok?
    requires 0 <= i < |store.turnitinParts|
    ensures var after := ToggleAllowLate(store, env, partId, allowLate).value.store;
      var before := TurnitinRowOf(store, env, tokens, start, end, store.turnitinParts[i]);
      var now := TurnitinRowOf(after, env, tokens, start, end, after.turnitinParts[i]);
      (now.Some? <==> before.Some?) &&
      (now.Some? && store.turnitinParts[i].id == partId ==> now.value.allowLate == allowLate) &&
      (store.turnitinParts[i].id != partId ==> now == before)
  {
  }

  /** After a cutoff is set, the assignment query lists the same rows as
      before, and each row of that assignment reports the new cutoff and
      whether submissions are now open. */
  lemma CutoffSeenByQuery(store: Store, env: Env, assignmentId: int, cutoffDate: int,
                          tokens: seq<string>, start: int, end: int, i: int, cm: CourseModule)
    requires SetCutoff(store, env, assignmentId, cutoffDate).Ok?
    requires 0 <= i < |store.assignments|
    ensures var after := SetCutoff(store, env, assignmentId, cutoffDate).value.store;
      var a := store.assignments[i];
      var before := AssignmentRowOf(store, env, tokens, start, end, a, cm);
      var now := AssignmentRowOf(after, env, tokens, start, end, after.assignments[i], cm);
      (now.Some? <==> before.Some?) &&
      (now.Some? && a.id == assignmentId ==>
         now.value.cutoffDate == cutoffDate &&
         now.value.submissionsOpen == SubmissionsOpen(env.now, cutoffDate, a.allowSubmissionsFromDate)) &&
      (a.id != assignmentId ==> now == before)
  {
  }
}
