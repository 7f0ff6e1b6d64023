/** The host database tables the handlers read and write, as sequences of
    immutable rows, and the two ways a handler reads a single row. */
module Schema {
  import opened Platform
  import opened Seqs

  /** `mdl_user` (the columns the handlers use). */
  datatype User = User(id: int, username: string, deleted: bool)

  /** `mdl_course`. */
  datatype Course = Course(
    id: int,
    fullname: string,
    shortname: string,
    category: int,
    startDate: int,
    endDate: int)

  /** `mdl_enrol`: one enrolment method of a course; status 0 is enabled. */
  datatype EnrolInstance = EnrolInstance(id: int, enrol: string, courseId: int, status: int)

  /** `mdl_user_enrolments`: a user's enrolment through one method; status 1
      is suspended, 0 active. */
  datatype UserEnrolment = UserEnrolment(
    id: int,
    enrolId: int,
    userId: int,
    status: int,
    timeCreated: int,
    timeModified: int)

  /** `mdl_grade_items`; the nullable columns are options. */
  datatype GradeItem = GradeItem(
    id: int,
    courseId: int,
    itemType: string,
    itemModule: Option<string>,
    itemInstance: Option<int>,
    itemName: Option<string>,
    gradeMax: Option<real>,
    hidden: int)

  /** `mdl_grade_grades`. */
  datatype Grade = Grade(id: int, itemId: int, userId: int, finalGrade: Option<real>, timeModified: int)

  /** `mdl_grade_grades_history`: one earlier state of a grade. */
  datatype HistoryEntry = HistoryEntry(
    id: int,
    itemId: int,
    userId: int,
    finalGrade: Option<real>,
    timeModified: int,
    userModified: Option<int>,
    loggedUser: Option<int>,
    action: int)

  /** `mdl_turnitintooltwo`: a Turnitin assignment. */
  datatype TurnitinTool = TurnitinTool(id: int, course: int, name: string)

  /** `mdl_turnitintooltwo_parts`: one part of a Turnitin assignment. */
  datatype TurnitinPart = TurnitinPart(
    id: int,
    toolId: int,
    partName: string,
    tiiAssignId: int,
    dtDue: int,
    allowLate: int,
    reportGenSpeed: int)

  /** `mdl_assign`: a native assignment. */
  datatype Assignment = Assignment(
    id: int,
    course: int,
    name: string,
    dueDate: int,
    cutoffDate: int,
    allowSubmissionsFromDate: int,
    grade: real)

  /** `mdl_course_modules`. */
  datatype CourseModule = CourseModule(
    id: int,
    course: int,
    moduleId: int,
    instance: int,
    visible: int,
    deletionInProgress: int)

  /** `mdl_modules`: an installed activity module type. */
  datatype Module = Module(id: int, name: string)

  /** The database. `otherActivities` holds, for every further activity-module
      table the site has, the ids of its rows; a module name absent from it
      and other than `assign` and `turnitintooltwo` has no table. */
  datatype Store = Store(
    users: seq<User>,
    courses: seq<Course>,
    enrol: seq<EnrolInstance>,
    userEnrolments: seq<UserEnrolment>,
    gradeItems: seq<GradeItem>,
    grades: seq<Grade>,
    history: seq<HistoryEntry>,
    turnitinTools: seq<TurnitinTool>,
    turnitinParts: seq<TurnitinPart>,
    assignments: seq<Assignment>,
    courseModules: seq<CourseModule>,
    modules: seq<Module>,
    otherActivities: map<string, set<int>>)

  /** What a handler that may write leaves behind: the database after the
      call and the answer it returns. */
  datatype Outcome<+T> = Outcome(store: Store, answer: T)

  /** A read that insists on exactly one row (`MUST_EXIST`): no row and more
      than one row are both errors. */
  function FetchOne<T(!new)>(rows: seq<T>, p: T -> bool, table: string): (r: Result<T>)
    ensures r.Ok? <==> Count(rows, p) == 1
    ensures r.Ok? ==> r.value in rows && p(r.value) && forall x :: x in rows && p(x) ==> x == r.value
    ensures r == Err(RecordMissing(table)) <==> forall x :: x in rows ==> !p(x)
    ensures r == Err(MultipleRecords(table)) <==> Count(rows, p) > 1
  {
    var matches := Filter(rows, p);
    if |matches| == 0 then Err(RecordMissing(table))
    else if |matches| > 1 then Err(MultipleRecords(table))
    else
      assert matches == [matches[0]];
      Ok(matches[0])
  }

  /** The `user` row condition of the username lookups: a live account with
      this username. */
  function LiveAccount(username: string): User -> bool {
    (u: User) => u.username == username && !u.deleted
  }

  /** The live account with this username, which must be unique. */
  function FetchUser(store: Store, username: string): (r: Result<User>)
    ensures r.Ok? <==> Count(store.users, LiveAccount(username)) == 1
    ensures r.Ok? ==> r.value in store.users && r.value.username == username && !r.value.deleted
    ensures r.Err? ==> r.error == RecordMissing("user") || r.error == MultipleRecords("user")
    ensures r == Err(RecordMissing("user")) <==>
      forall u :: u in store.users ==> u.username != username || u.deleted
    ensures r == Err(MultipleRecords("user")) <==> Count(store.users, LiveAccount(username)) > 1
  {
    FetchOne(store.users, LiveAccount(username), "user")
  }

  /** The course with this id (ids are the table's primary key). */
  function CourseById(store: Store, id: int): (r: Option<Course>)
    ensures r.None? <==> forall c :: c in store.courses ==> c.id != id
    ensures r.Some? ==> r.value in store.courses && r.value.id == id
  {
    First(store.courses, (c: Course) => c.id == id)
  }

  /** `get_course`: the course, or an error when there is none. */
  function FetchCourse(store: Store, id: int): (r: Result<Course>)
    ensures r.Ok? <==> CourseById(store, id).Some?
    ensures r.Ok? ==> r.value in store.courses && r.value.id == id
    ensures r.Err? ==> r.error == RecordMissing("course")
  {
    var c := CourseById(store, id);
    if c.None? then Err(RecordMissing("course")) else Ok(c.value)
  }

  /** `context_course::instance`: a course context exists exactly for the
      courses in the table; asking for another one raises. */
  function CourseContext(store: Store, courseId: int): (r: Result<Scope>)
    ensures r.Ok? <==> CourseById(store, courseId).Some?
    ensures r.Ok? ==> r.value == CourseScope(courseId)
    ensures r.Err? ==> r.error == ContextMissing(courseId)
  {
    if CourseById(store, courseId).Some? then Ok(CourseScope(courseId)) else Err(ContextMissing(courseId))
  }

  /** The enrolment method with this id. */
  function EnrolById(store: Store, id: int): (r: Option<EnrolInstance>)
    ensures r.None? <==> forall e :: e in store.enrol ==> e.id != id
    ensures r.Some? ==> r.value in store.enrol && r.value.id == id
  {
    First(store.enrol, (e: EnrolInstance) => e.id == id)
  }

  /** The Turnitin assignment with this id. */
  function ToolById(store: Store, id: int): (r: Option<TurnitinTool>)
    ensures r.None? <==> forall t :: t in store.turnitinTools ==> t.id != id
    ensures r.Some? ==> r.value in store.turnitinTools && r.value.id == id
  {
    First(store.turnitinTools, (t: TurnitinTool) => t.id == id)
  }

  /** The Turnitin part with this id. */
  function PartById(store: Store, id: int): (r: Option<TurnitinPart>)
    ensures r.None? <==> forall p :: p in store.turnitinParts ==> p.id != id
    ensures r.Some? ==> r.value in store.turnitinParts && r.value.id == id
  {
    First(store.turnitinParts, (p: TurnitinPart) => p.id == id)
  }

  /** The native assignment with this id. */
  function AssignmentById(store: Store, id: int): (r: Option<Assignment>)
    ensures r.None? <==> forall a :: a in store.assignments ==> a.id != id
    ensures r.Some? ==> r.value in store.assignments && r.value.id == id
  {
    First(store.assignments, (a: Assignment) => a.id == id)
  }

  /** The installed module type with this id. */
  function ModuleById(store: Store, id: int): (r: Option<Module>)
    ensures r.None? <==> forall m :: m in store.modules ==> m.id != id
    ensures r.Some? ==> r.value in store.modules && r.value.id == id
  {
    First(store.modules, (m: Module) => m.id == id)
  }

  /** `record_exists(<module>, ['id' => instance])`: whether the activity
      table of `module` has a row with this id; reading a table the site
      does not have raises. */
  function ActivityExists(store: Store, moduleName: string, instance: int): (r: Result<bool>)
    ensures moduleName == "assign" ==> r == Ok(AssignmentById(store, instance).Some?)
    ensures moduleName == "turnitintooltwo" ==> r == Ok(ToolById(store, instance).Some?)
    ensures moduleName != "assign" && moduleName != "turnitintooltwo" ==>
      (r.Ok? <==> moduleName in store.otherActivities) &&
      (r.Ok? ==> (r.value <==> instance in store.otherActivities[moduleName])) &&
      (r.Err? ==> r.error == ReadFailed(moduleName))
  {
    if moduleName == "assign" then Ok(AssignmentById(store, instance).Some?)
    else if moduleName == "turnitintooltwo" then Ok(ToolById(store, instance).Some?)
    else if moduleName in store.otherActivities then Ok(instance in store.otherActivities[moduleName])
    else Err(ReadFailed(moduleName))
  }
}
