/** What the host learning-management platform hands to every web-service handler:
    nullable values, the exceptions a handler can raise, the capabilities it asks
    the access-control service about, and the request environment (caller, clock,
    installed enrolment plugins, date rendering). */
module Platform {

  /** A nullable column or result field: PHP `null` is `None`. */
  datatype Option<+T> = None | Some(value: T)

  /** A capability the handlers check, named after the host's capability strings. */
  datatype Capability =
    | GradeView                    // moodle/grade:view
    | GradeViewAll                 // moodle/grade:viewall
    | UserViewDetails              // moodle/user:viewdetails
    | CourseView                   // moodle/course:view
    | ManageActivities             // moodle/course:manageactivities
    | EnrolManage(plugin: string)  // enrol/<plugin>:manage

  /** The context a capability is checked in. */
  datatype Scope = SystemScope | CourseScope(courseId: int)

  /** Why an `invalid_parameter_exception` was raised. */
  datatype InvalidReason =
    | NotEnrolled
    | PluginUnavailable(plugin: string)
    | NoCourseNames
    | InvertedRange

  /** The exceptions a handler lets escape to the web-service caller. */
  datatype Error =
    | RecordMissing(table: string)       // a MUST_EXIST read found no row
    | MultipleRecords(table: string)     // a MUST_EXIST read found more than one row
    | NoPermission(capability: Capability)
    | InvalidParameter(reason: InvalidReason)
    | ContextMissing(courseId: int)      // a course context for a course that does not exist
    | ReadFailed(table: string)          // a read from a table the database does not have

  /** A handler either returns a value or raises one of the errors above;
      `:-` propagates a raised error. */
  datatype Result<+T> = Ok(value: T) | Err(error: Error) {
    predicate IsFailure() {
      Err?
    }

    function PropagateFailure<U>(): Result<U>
      requires Err?
    {
      Err(error)
    }

    function Extract(): T
      requires Ok?
    {
      value
    }
  }

  /** The request environment. `can` is the host's capability check for the
      current user, `now` stands for `time()`, `pluginAvailable` for
      `enrol_get_plugin` returning a plugin, and `renderDate` for
      `date('d-m-Y', t)`. */
  datatype Env = Env(
    callerId: int,
    can: (Capability, Scope) -> bool,
    now: int,
    pluginAvailable: string -> bool,
    renderDate: int -> string)

  /** PHP's `date` always produces text for a real timestamp. */
  ghost predicate RendersDates(env: Env) {
    forall t :: t > 0 ==> env.renderDate(t) != []
  }

  /** PHP's `(int)$flag` for a boolean, as written into an integer column. */
  function BoolToInt(b: bool): (n: int)
    ensures 0 <= n <= 1
    ensures (n == 1) == b
  {
    if b then 1 else 0
  }
}
