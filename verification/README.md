# User course control web services, modelled in Dafny

This project models the web-service handlers of the `local_usercoursecontrol`
plugin for the Moodle learning-management platform. The handlers are:

- **Grades.** `get_grade_status` lists a user's grade items in a course. For
  each item it reports the current final grade and whether the grade history
  holds an earlier, different value. If so, it also reports when that value
  was replaced and by whom.
- **Enrolments.**
  - `get_user_courses_filtered` lists the courses a user is enrolled in. Two
    optional filters narrow the list: one on fullname tokens, one on
    shortname tokens.
  - `list_suspended_courses` lists the courses where the user's enrolment is
    suspended.
  - `unsuspend_user` reinstates the first suspended enrolment of a user in a
    course.
- **Due-date queries.** `get_turnitin_assignments` and `get_assignments` list
  the Turnitin assignment parts and the native assignments that fall due in a
  date range. Only courses named in a list of course names are searched.
- **Writes.** `toggle_turnitin_allowlate` and `set_assignment_cutoff` change
  one row. `bulk_toggle_turnitin_allowlate` and `bulk_set_assignment_cutoff`
  change many rows, counting successes and failures instead of raising.

How the host is represented:

- The database is a `Store` of immutable row sequences.
- A handler is a pure function. A reading handler returns
  `Result<answer>`. A writing handler returns `Result<Outcome>`, where
  `Outcome` pairs the database after the call with the answer.
- An exception the handler lets escape is an `Err`.
- The caller, the capability check, the clock, the installed enrolment
  plugins and date rendering are fields of an `Env` parameter.

Modules, in dependency order:

| module | what it holds |
|---|---|
| `Platform` | Options, results and errors, capabilities, the request environment. |
| `Seqs` | Database-layer sequence operations: first matching row, filter, count, joins, updates in place. Also `Collapse`: `get_records_sql` keys its result by the first column, so rows with a repeated key collapse into one. |
| `Order` | Code-point string order, the three-part sort key of the due-date queries, and a stable insertion sort standing for `ORDER BY`. |
| `Text` | PHP's `trim` and `empty`, the filter split on `[\r\n,]+`, and the case-insensitive `LIKE '%…%'`. |
| `Schema` | The tables, `MUST_EXIST` reads, course contexts, activity-table lookups. |
| `Grades`, `Enrolments`, `Assignments`, `Mutations` | The handlers, with the lemmas that relate them. |

All paths below are relative to the plugin repository root.

## Model

| member | source | states |
|---|---|---|
| Schema.FetchOne | local/usercoursecontrol/classes/external.php:67 | A `MUST_EXIST` read succeeds exactly when one row matches, and returns that row. No match raises a missing-record error; several matches raise a multiple-records error. |
| Schema.FetchUser | local/usercoursecontrol/classes/external.php:67 | The read succeeds exactly when one live (not deleted) account has the username, and returns that account. When none has it, the read raises a missing-record error; when several have it, a multiple-records error. |
| Schema.FetchCourse | local/usercoursecontrol/classes/external.php:63 | `get_course` returns the course with the id, or raises when the course table has none. |
| Schema.CourseContext | local/usercoursecontrol/classes/external.php:726 | A course context exists exactly for an existing course. For any other id, `context_course::instance` raises. |
| Schema.ActivityExists | local/usercoursecontrol/classes/external.php:96-104 | `record_exists` on a module's table answers whether the instance row exists. Reading the table of an unknown module raises. |
| Seqs.Collapse | local/usercoursecontrol/classes/external.php:493 | The keyed result of `get_records_sql` has distinct keys, exactly the keys of the query rows. Each entry is the last row with its key. |
| Seqs.CollapseOrder | local/usercoursecontrol/classes/external.php:493 | The keyed result lists its keys in the order in which they first appear among the query rows. |
| Order.SortByMembers | local/usercoursecontrol/classes/external.php:490 | Sorting for `ORDER BY` keeps exactly the rows it is given. |
| Order.KeyLeTrans | local/usercoursecontrol/classes/external.php:633 | The order `due date, course fullname, name` is transitive, so it is a valid sort order. |
| Order.CollapseKeepsSorted | local/usercoursecontrol/classes/external.php:490-493 | Keying a sorted result by course keeps it sorted when rows with the same key are equal under the order. |
| Text.TrimUnique | local/usercoursecontrol/classes/external.php:419-420 | `trim` removes exactly the leading and trailing whitespace. Any text made of whitespace, a trimmed middle, then whitespace trims to that middle. |
| Text.TokensAppend | local/usercoursecontrol/classes/external.php:457-459 | Splitting a filter on `[\r\n,]+`, trimming the pieces and dropping the ones `empty` rejects treats a delimiter as a boundary. The tokens on either side are listed in order. |
| Text.TokensOfWord | local/usercoursecontrol/classes/external.php:457-459 | A text without delimiters is one token, namely its trimmed self. The exception is when `empty` rejects the trimmed text ("" or "0"); then there are no tokens. |
| Text.TwoTokenFilter | local/usercoursecontrol/classes/external.php:456-459 | The filter "x, y" yields exactly the tokens x and y. |
| Text.NameTokens | local/usercoursecontrol/classes/external.php:594-599 | A course-name token is exactly a listed name, once trimmed, that `empty` does not reject. |
| Text.Occurs | local/usercoursecontrol/classes/external.php:465 | The substring test behind `LIKE '%token%'` holds exactly when the token occurs at some position. |
| Grades.LatestDiffering | local/usercoursecontrol/classes/external.php:143-167 | The history query finds no entry exactly when none of this user's entries for the item differs from the current grade by more than 0.001 (or none holds a value, if there is no current grade). Otherwise it finds the differing entry that comes first under `timemodified DESC, id DESC`. |
| Grades.ModifierOf | local/usercoursecontrol/classes/external.php:172-176 | The modifier is `usermodified` when it is set and non-zero, otherwise `loggeduser` when that is. Otherwise there is none. |
| Grades.GradeItemStatus | local/usercoursecontrol/classes/external.php:121-192 | See the breakdown below the table. |
| Grades.CloseValuesAreNoChange | local/usercoursecontrol/classes/external.php:149-150 | Earlier values within 0.001 of the current grade never count as a modification. The reported time is then the grade's own. |
| Grades.SelectedItems | local/usercoursecontrol/classes/external.php:76-90 | The items read are exactly the course's non-hidden items, in ascending id order. That means the given item when an id is passed, and every item except the course total otherwise. |
| Grades.Reported | local/usercoursecontrol/classes/external.php:96-104 | An activity item (type `mod`, with a module and a non-zero instance) is reported only when its activity row exists. Every other item is reported. |
| Grades.ItemStatusesFails | local/usercoursecontrol/classes/external.php:93-108 | The item loop fails exactly when an existence check on an activity table fails. It then raises the first such failure. |
| Grades.ItemStatusesMembers | local/usercoursecontrol/classes/external.php:93-108 | A successful loop answers with exactly the status of each reported item. |
| Grades.ItemStatusesSorted | local/usercoursecontrol/classes/external.php:80-93 | Items in ascending id order give answers in ascending item-id order. |
| Grades.GradeStatus | local/usercoursecontrol/classes/external.php:48-111 | See the breakdown below the table. |
| Grades.ItemStatusesCount | local/usercoursecontrol/classes/external.php:93-108 | A successful loop gives one status per item it keeps. |
| Grades.Report | local/usercoursecontrol/classes/external.php:76-108 | The report on the selected items fails exactly when an existence check fails, with the error of the first failing item in id order. A successful report is in item-id order, holds exactly the statuses of the selected, kept items, and has one status per kept item. |
| Enrolments.EnrolledRow | local/usercoursecontrol/classes/external.php:430-484 | An enrolment contributes a row exactly when it is the user's, through an enabled method of an existing course that passes both filters. The row carries the course's id, fullname, shortname, category, start date and end date, the enrolment's status, creation time and modification time, and the method's plugin name. |
| Enrolments.EnrolledCourses | local/usercoursecontrol/classes/external.php:430-497 | The result is sorted by fullname and has one row per course. Every row comes from some contributing enrolment, and every contributing enrolment's course is listed. |
| Enrolments.CoursesFiltered | local/usercoursecontrol/classes/external.php:409-512 | The caller needs `user:viewdetails` at system level; the target user must exist. The answer is the filtered course list, with the filters trimmed and split into tokens. |
| Enrolments.BlankFilterIsNoFilter | local/usercoursecontrol/classes/external.php:456 | A filter that trims to "" or "0" restricts nothing. |
| Enrolments.SuspendedRow | local/usercoursecontrol/classes/external.php:244-256 | A suspended enrolment of the user through an enabled method of an existing course contributes a row exactly. The row carries the course's id, fullname and shortname, and the enrolment's modification time. |
| Enrolments.ListSuspended | local/usercoursecontrol/classes/external.php:229-268 | Same capability and user checks as the filtered list, with the user read's own error. Each course with a suspended enrolment is listed exactly once, and nothing else is listed. |
| Enrolments.SuspendedCoursesAreEnrolled | local/usercoursecontrol/classes/external.php:244-256 | Every course listed as suspended is also listed by the unfiltered course query. |
| Enrolments.FirstSuspended | local/usercoursecontrol/classes/external.php:334-336 | The enrolment chosen for reinstatement is a suspended enrolment of the user in the course, and there is one whenever any exists. |
| Enrolments.Unsuspend | local/usercoursecontrol/classes/external.php:302-372 | See the breakdown below the table. |
| Enrolments.ReactivateOne | local/usercoursecontrol/classes/external.php:346 | Under the unique index on (enrolid, userid), reinstating one suspended enrolment lowers the user's suspended count in the course by one and raises the active count by one. |
| Enrolments.UnsuspendReinstatesOne | local/usercoursecontrol/classes/external.php:334-350 | A successful call reinstates exactly one suspended enrolment. |
| Enrolments.NothingToReinstate | local/usercoursecontrol/classes/external.php:353-366 | With active but no suspended enrolments, the call changes nothing and reports failure with status 0. |
| Enrolments.UnsuspendTwice | local/usercoursecontrol/classes/external.php:334-371 | When the only suspended enrolment was reinstated, asking again changes nothing. It reports failure with previous and new status 0. |
| Assignments.FormatDate | local/usercoursecontrol/classes/external.php:639-643 | A formatted date is empty exactly for a timestamp of 0 or less; otherwise it is the rendered date. |
| Assignments.SubmissionsOpenExactly | local/usercoursecontrol/classes/external.php:982-989 | Submissions are open exactly when no cutoff date has passed and no opening date is still ahead. |
| Assignments.CutoffEffect | local/usercoursecontrol/classes/external.php:982-986 | Removing the cutoff never closes submissions. A past cutoff always closes them. |
| Assignments.CheckQuery | local/usercoursecontrol/classes/external.php:576-582 | The checks run in this order: `course:view` at system level, at least one course name, then start not after end. |
| Assignments.TurnitinRowOf | local/usercoursecontrol/classes/external.php:613-660 | A part contributes a row exactly when its Turnitin assignment and course exist, it is due in the range, and the course matches a name token. The row carries the part's id, name, Turnitin id, due date, formatted date, `allowlate = 1` flag and report speed, the Turnitin assignment's id and name, and the course's id, shortname and fullname. |
| Assignments.TurnitinRows | local/usercoursecontrol/classes/external.php:613-633 | The joined rows are exactly those some part contributes, one per contributing part. |
| Assignments.TurnitinAssignments | local/usercoursecontrol/classes/external.php:560-662 | The checks fail with their error. When no name survives trimming, the answer is empty. Otherwise the answer is sorted by due date, course fullname and assignment name, and is a reordering of the joined rows: exactly the contributed rows, one per contributing part. |
| Assignments.CourseNamed | local/usercoursecontrol/classes/external.php:594-606 | Matching the course against the name tokens is the same as matching it against one of the raw names, trimmed and accepted by `empty`: exact shortname, or fullname containing the name ignoring case. |
| Assignments.TurnitinListed | local/usercoursecontrol/classes/external.php:613-633 | A part whose assignment and course exist is listed exactly when it is due in the range and its course is named. |
| Assignments.AssignmentRowOf | local/usercoursecontrol/classes/external.php:937-1007 | See the breakdown below the table. |
| Assignments.JoinRowsMembers | local/usercoursecontrol/classes/external.php:953-956 | The joined rows are exactly those some assignment and course module contribute. |
| Assignments.AssignmentRows | local/usercoursecontrol/classes/external.php:937-959 | The result has one row per assignment id. Every row is contributed, and every contributing assignment is listed. With unique assignment ids, the result is sorted. |
| Assignments.GetAssignments | local/usercoursecontrol/classes/external.php:884-1011 | The same checks and empty-name behaviour as the Turnitin query. Otherwise the answer is the assignment rows. |
| Assignments.ZeroNameListsNothing | local/usercoursecontrol/classes/external.php:596-598 | Because `empty` rejects "0", asking for the course name "0" lists nothing, whatever the courses are called. |
| Mutations.PartCourse | local/usercoursecontrol/classes/external.php:719-723 | The part query finds a course exactly when the part and its Turnitin assignment exist. |
| Mutations.SetAllowLate | local/usercoursecontrol/classes/external.php:731 | `set_field` sets `allowlate` on the rows with the id and changes nothing else. |
| Mutations.AllowLateKeepsWritable | local/usercoursecontrol/classes/external.php:812-827 | Writing `allowlate` never changes whether a later part may be written. |
| Mutations.ToggleAllowLate | local/usercoursecontrol/classes/external.php:703-738 | See the breakdown below the table. |
| Mutations.SetCutoffDate | local/usercoursecontrol/classes/external.php:1080 | `set_field` sets `cutoffdate` on the rows with the id and changes nothing else. |
| Mutations.CutoffKeepsWritable | local/usercoursecontrol/classes/external.php:1156-1171 | Writing a cutoff date never changes whether a later assignment may be written. |
| Mutations.SetCutoff | local/usercoursecontrol/classes/external.php:1057-1087 | The same three errors, in the same order, for the assignment row. On success: the cutoff is set and the input is echoed. |
| Mutations.BulkLoop | local/usercoursecontrol/classes/external.php:803-840 | Every listed id counts as exactly one success or one failure. |
| Mutations.BulkLoopAccepted | local/usercoursecontrol/classes/external.php:803-834 | When writes do not affect later checks, a bulk run writes exactly the listed ids the caller may write, and counts them as its successes. |
| Mutations.BulkToggleAllowLate | local/usercoursecontrol/classes/external.php:776-843 | See the breakdown below the table. |
| Mutations.BulkSetCutoff | local/usercoursecontrol/classes/external.php:1125-1187 | The same as the bulk toggle, for the cutoff date of assignments. |
| Mutations.BulkToggleOfOne | local/usercoursecontrol/classes/external.php:808-829 | A bulk toggle of one part writes what the single toggle writes. It counts a success when that succeeds and a failure when it raises. |
| Mutations.BulkCutoffOfOne | local/usercoursecontrol/classes/external.php:1154-1172 | The same correspondence for the cutoff date. |
| Mutations.ToggleTwice | local/usercoursecontrol/classes/external.php:719-731 | Toggling again with the same value succeeds and changes nothing more. |
| Mutations.CutoffTwice | local/usercoursecontrol/classes/external.php:1073-1080 | Setting the same cutoff again succeeds and changes nothing more. |
| Mutations.BulkToggleTwice | local/usercoursecontrol/classes/external.php:803-842 | Repeating a bulk toggle gives the same counts and changes nothing more. |
| Mutations.BulkCutoffTwice | local/usercoursecontrol/classes/external.php:1151-1186 | Repeating a bulk cutoff gives the same counts and changes nothing more. |
| Mutations.ToggleSeenByQuery | local/usercoursecontrol/classes/external.php:731 | After a toggle, the Turnitin query lists the same parts. A toggled part reports the new flag; every other row is unchanged. |
| Mutations.CutoffSeenByQuery | local/usercoursecontrol/classes/external.php:1080 | After a cutoff is set, the assignment query lists the same rows. The assignment's rows report the new cutoff and the matching submissions-open flag; every other row is unchanged. |

### Breakdown of the longer contracts

**Grades.GradeItemStatus** (status of one grade item):
- The item's id, name, type, module and maximum are always reported.
- Without a grade row: no current grade, not modified, time 0.
- With a grade row:
  - The current grade is the row's final grade.
  - The item is modified exactly when an earlier, different value exists.
  - If it is modified, the time, the previous grade and the modifier come from the latest such entry. Otherwise the time is the grade's own.

**Grades.GradeStatus** (`get_grade_status`):
- The checks run in this order: the course exists, the user exists, then the capability. The capability is `grade:view` for one's own grades and `grade:viewall` for anyone else's, in the course.
- The only errors are those checks and the activity-table reads.
- With the capability, the call fails exactly when an activity-table read fails. The error is then that of the first failing item in id order.
- A successful answer is in item-id order and holds exactly the statuses of the selected, reported items, one per such item.

**Enrolments.Unsuspend** (`unsuspend_user`):
- The checks run in this order: the course exists, then the user exists.
- If the user has no enrolment in the course: not enrolled.
- If the user has no suspended enrolment in the course: no change, and the answer reports failure. The statuses are 0 when there is an active enrolment, and null otherwise.
- If the user has a suspended enrolment, the first one is the candidate:
  - if its enrolment plugin is unavailable, the call raises;
  - if the caller lacks that plugin's manage capability, the call raises;
  - otherwise the call succeeds. It reinstates that enrolment and answers success with statuses 1 and 0.

**Assignments.AssignmentRowOf** (one row of `get_assignments`):
- An assignment and a course module contribute a row exactly when all of these hold:
  - the course exists;
  - the module is an undeleted `assign` module of that course for that instance;
  - the due date is in the range;
  - the course is named.
- The row carries:
  - the assignment's id, name and grade maximum;
  - the course's id, shortname and fullname;
  - the course module's id;
  - the three dates;
  - their formatted forms;
  - the module's visibility as `visible = 1`;
  - `submissionsOpen` for the current time.

**Mutations.ToggleAllowLate** (`toggle_turnitin_allowlate`):
- The errors, in this order:
  1. a missing part or Turnitin assignment;
  2. a missing course context;
  3. no `course:manageactivities` in the course.
- The call succeeds exactly when the part may be written. It then sets `allowlate` to 1 or 0 and echoes the input.

**Mutations.BulkToggleAllowLate** (`bulk_toggle_turnitin_allowlate`):
- Counts: success plus failed equals total, which equals the number of listed ids. An empty list answers {0, 0, 0} and leaves the database alone.
- Writes: a part row ends with the new flag exactly when its id is listed and the caller may write it. Every other row, and every other table, is unchanged.

## Left out

- Parameter validation and cleaning (`validate_parameters`, `PARAM_*` cleaning), `validate_context`, and the `*_parameters` / `*_returns` descriptions. Handler inputs are taken as already cleaned integers, booleans and strings.
- The host's capability evaluation (roles, overrides, context inheritance). It is the `Env.can` parameter.
- `enrol_get_plugin` is the `Env.pluginAvailable` parameter.
- PHP's `date('d-m-Y', …)` is the `Env.renderDate` parameter, so time zones and the date format are not modelled. The only assumption is that it renders some text for a positive timestamp.
- `time()` is read once per result row in `get_assignments`. The model uses a single `Env.now` for the whole call, so a clock tick during the loop is not modelled.
- SQL text, `sql_like_escape` and `get_in_or_equal` are modelled by their meaning on rows.
- Collation:
  - Case-insensitive `LIKE` is an ASCII case fold.
  - Shortname equality is exact.
  - `ORDER BY` on text is code-point order.
  - Database collations and accent folding are left out.
- Grades and the grade maximum are reals, not floating-point numbers. The grade tolerance 0.001 is compared exactly.
- `update_user_enrol` is modelled as setting the status of the reinstated enrolment to active. Its other effects are left out: the modification time, the modifier, events and cache invalidation.
- Enrolments.UnsuspendReinstatesOne, Enrolments.ReactivateOne and Enrolments.UnsuspendTwice assume the database's unique index on user enrolments (enrolid, userid). Without that index, the update could touch a different row than the one chosen.
- Joins and lookups on primary-key columns read the first row with that id. This includes the `MUST_EXIST` reads by id (the enrolment instance in `unsuspend_user`, the assignment in `set_assignment_cutoff`): the database layer keys the fetched rows by id, so a repeated id could never raise a multiple-records error there. Duplicate primary keys are not modelled beyond that. Reads on other columns (the username) do raise on several matches.
- Assignments.AssignmentRows and Assignments.GetAssignments promise sorted output only when assignment ids are unique. With repeated ids, keying the result by assignment id can move rows out of order, as it would on the host.
- Enrolments.ListSuspended promises no order, because the query has no `ORDER BY` and the database's row order is unspecified.
- History actions: the handler's doc comment says modifications are detected from UPDATE actions only, but the query does not filter on `action`. The model follows the query.
- Database errors other than a missing row or a missing table are left out.
- Web-service registration (`db/services.php`) is left out; it names the handlers and holds no logic.
