# Classroom task manager — data layer in Dafny

A model of the data layer of a classroom task manager (a single React
component, `src/App.jsx`). Teachers create assignments; students search
them, see each one as pending, completed or overdue, and submit work;
teachers comment on submissions. Everything lives in an in-memory store of
three parts: the task list, the submission list and the logged-in user.

The model has five modules:

- `Wrappers` — `Option`, for the source's `null`/`undefined` values.
- `Sequences` — the array combinators the store is written with:
  `Filter` (Array.prototype.filter), `Map` (Array.prototype.map), and an
  order-preserving subsequence relation, with generic lemmas (filtering is
  a subsequence, counts occurrences exactly, is idempotent, ignores
  predicates that agree, distributes over appending).
- `Text` — `toLowerCase` and `includes`. Lowering folds A–Z and the
  Latin-1 capitals U+00C0–U+00DE (except ×), which JavaScript lowers by
  adding 32; every other character is left alone. `Contains` is proved to
  find an occurrence exactly when one exists.
- `Classroom` — the entities (`Task`, `Submission`, `Student`, `User`,
  `Credential`), the status of a task for the logged-in user
  (`TaskStatus`), the task search (`FilteredTasks`), the pending list sorted
  by due date (`PendingTasks`, a stable insertion sort), the teacher's
  student search (`StudentsMatching`) and the credential check
  (`Authenticate` over the fixed `Credentials` table).
- `TaskStore` — the new value each handler gives the store (`AddTask`,
  `AddSubmission`, `RemoveSubmission`, `SetComment`), lemmas about them,
  and the class `Store` whose `tasks`, `submissions` and `user` fields the
  handler methods (`Login`, `CreateTask`, `SubmitTask`, `DeleteSubmission`,
  `AddComment`) replace, exactly as `setTasks`/`setSubmissions`/`setUser`
  replace the component's state.

Time is an integer `Instant` (milliseconds since the Unix epoch) and the
current moment `now` is a parameter. A due date is the instant its day
begins: `new Date('2024-01-15')` is midnight UTC. So a task turns overdue
as soon as its due day starts, not when the day ends. The ids that the
source draws from `Date.now()` are caller-supplied parameters (`freshId`),
and so is the submission date (`today`). Nothing guarantees that ids are
unique, and the model assumes no such thing: deletion and commenting act on
every record with the given id.

The application assumes, but never checks, that every submission names an
existing task. `TaskStore.ReferencesExist`
states it. The lemmas show that creating tasks, deleting submissions and
commenting keep it, and that submitting keeps it exactly when the task
submitted for exists.

Two details of the handlers:
- `addComment` stores the comment it is given. The teacher's dialog passes a
  fixed text instead of what was typed (src/App.jsx:605); that call site is
  not modelled.
- `createTask` builds `{ id, ...taskData, status, createdBy }`. An `id` in the
  task data therefore overrides the generated one, while `status` and
  `createdBy` are always overwritten. `TaskDraft` carries optional `id`,
  `status` and `createdBy` fields so that `NewTask` can show this.

The status and the search read `user?.email` and `user?.role` and accept a
missing user: then no submission matches, and no status filter applies.

## Model

| member | source | states |
|---|---|---|
| `Classroom.TaskStatus` | src/App.jsx:214-221 | completed exactly when the user has a submission for the task; otherwise overdue exactly when the due instant is before now, pending exactly when it is not |
| `Classroom.CompletionWinsOverLateness` | src/App.jsx:215-218 | any matching submission makes the task completed at every instant, however far past its due date |
| `Classroom.StatusMonotoneInTime` | src/App.jsx:216-220 | as time passes an overdue task stays overdue, and a task pending later was pending earlier |
| `Classroom.StoredStatusIgnored` | src/App.jsx:214-221 | the task's stored `status` field does not affect the status shown |
| `Classroom.DueDateScenario` | src/App.jsx:216-220 | a task due 2024-01-15 without a submission is pending on 2024-01-10 and overdue on 2024-01-20 |
| `Classroom.KeepTask` | src/App.jsx:224-233 | a kept task matches the term in title or description; for a student with a status selected it is in that status; for anyone else the term alone decides (full characterisation in `FilteredTasksSpec`) |
| `Classroom.FilteredTasks` | src/App.jsx:223-234 | the result is no longer than the task list and holds only tasks of the list that match the term (order, counts and completeness in `FilteredTasksSpec`) |
| `Classroom.FilteredTasksSpec` | src/App.jsx:223-234 | the search result is an order-preserving subsequence of the tasks; it holds exactly the tasks matching the term in title or description and, for a student with a status selected, only tasks in that status; each kept task occurs as often as in the input, each other task not at all |
| `Classroom.TeacherIgnoresStatusFilter` | src/App.jsx:227-233 | for anyone but a logged-in student the status selector does not change the result |
| `Classroom.FilteredTasksEmptyTermKeepsAll` | src/App.jsx:223-234 | an empty term with every status selected, or for a non-student, keeps every task in order |
| `Classroom.FilteredTasksIdempotent` | src/App.jsx:223-234 | searching the result again with the same inputs returns it unchanged |
| `Classroom.FilteredTasksCaseInsensitive` | src/App.jsx:224-225 | terms with the same lower-case form select the same tasks |
| `Classroom.SearchIgnoresAccentedCapitals` | src/App.jsx:224-225 | "BIOLOGÍA" and "biología" select the same tasks |
| `Text.Lower` | src/App.jsx:224-225 | lowering keeps the length and leaves no capital letter (which small letter each capital becomes in `LowerTable`, fixed points in `LowerFixesExactlyLowercase`) |
| `Text.LowerTable` | src/App.jsx:224-225 | A–Z lower to a–z and À–Þ (without ×) lower to à–þ (without ÷), letter by letter, covering every capital the model folds |
| `Text.Contains` | src/App.jsx:224-225 | the empty term is always contained and a contained term is no longer than the text (exact meaning in `ContainsIffOccurs`) |
| `Text.Matches` | src/App.jsx:224-225 | the empty term matches every text and a matching term is no longer than the text (case behaviour in `MatchesIgnoresTermCase`) |
| `Text.LowerFixesExactlyLowercase` | src/App.jsx:224-225 | lowering leaves a string unchanged exactly when it holds no capital letter |
| `Text.LowerIdempotent` | src/App.jsx:224-225 | lowering twice is lowering once |
| `Text.ContainsIffOccurs` | src/App.jsx:224-225 | `includes` answers true exactly when the term occurs at some position |
| `Text.EmptyTermMatches` | src/App.jsx:224-225 | the empty term matches every text |
| `Text.MatchesIgnoresTermCase` | src/App.jsx:224-225 | a term and its lower-cased form match the same texts |
| `Text.MatchesLowercaseOccurrence` | src/App.jsx:224-225 | a text matches exactly when the lowered term occurs in the lowered text |
| `Text.AccentedCapitalsFold` | src/App.jsx:224-225 | "BIOLOGÍA" and "biología" lower to the same string |
| `Classroom.InsertByDueDate` | src/App.jsx:725 | insertion adds exactly one copy of the task (order in `InsertByDueDateSpec`, stability in `InsertByDueDateStable`) |
| `Classroom.SortByDueDate` | src/App.jsx:725 | the sort is a permutation of its input (order and stability in `SortByDueDateSpec`) |
| `Classroom.InsertByDueDateSpec` | src/App.jsx:725 | inserting into a list sorted by due date keeps it sorted and adds exactly that one task |
| `Classroom.InsertByDueDateStable` | src/App.jsx:725 | an inserted task goes before every task with the same due date |
| `Classroom.SortByDueDateSpec` | src/App.jsx:725 | the sort orders by ascending due date, is a permutation, and keeps tasks with equal due dates in their original order |
| `Classroom.PendingTasks` | src/App.jsx:681-725 | the pending list is sorted by due date and holds only shown tasks whose status is pending (counts and stability in `PendingTasksSpec`) |
| `Classroom.PendingTasksSpec` | src/App.jsx:681-725 | the pending list holds each shown pending task as often as it is shown, nothing else, in ascending due-date order, stable |
| `Classroom.PendingEmptyUnderOtherFilter` | src/App.jsx:681-682 | a student who selects completed or overdue tasks has an empty pending list |
| `Classroom.StudentsMatching` | src/App.jsx:650-651 | the result is no longer than the roster and holds only roster entries whose name contains the term ignoring case (order, counts and completeness in `StudentsMatchingSpec`) |
| `Classroom.StudentsMatchingSpec` | src/App.jsx:650-651 | the student search keeps roster order, keeps exactly the names containing the term ignoring case, each kept entry as often as in the roster, and an empty term keeps everyone |
| `Classroom.Credentials` | src/App.jsx:118-121 | the table has exactly the teacher and the student demo accounts, both with password "123456", with roles teacher and student |
| `Classroom.Authenticate` | src/App.jsx:116-129 | a session opens exactly when the email is in the table and the password equals the stored one; it carries that email and the stored role and name |
| `Classroom.DemoLogins` | src/App.jsx:118-121 | the two demo accounts log in with "123456" as teacher and student; a wrong password or an unknown email is refused |
| `TaskStore.NewTask` | src/App.jsx:163-168 | the new task is "pending" and created by the creator whatever the draft says; its id is the draft's if it has one, else the fresh id |
| `TaskStore.AddTask` | src/App.jsx:162-169 | the old tasks are kept as a prefix and exactly one "pending" task by the creator follows (all fields in `AddTaskSpec`) |
| `TaskStore.AddTaskSpec` | src/App.jsx:162-169 | createTask appends exactly one task after the old ones; it is "pending", created by the creator, with the draft's id if it has one and the fresh id otherwise, and the draft's other fields |
| `TaskStore.NewTaskIsPending` | src/App.jsx:162-169 | a new task due in the future that no submission of the user names shows as pending |
| `TaskStore.AddTaskThenSearch` | src/App.jsx:162-169 | after creating a task, the search result is the old result followed by the new task exactly when it passes the search |
| `TaskStore.NewSubmission` | src/App.jsx:178-186 | the record has the fresh id, the task, the student's email and a null grade, and an omitted comment becomes "" |
| `TaskStore.AddSubmission` | src/App.jsx:177-187 | the old submissions are kept as a prefix and exactly one record for the task by the student, ungraded, follows (all fields in `AddSubmissionSpec`) |
| `TaskStore.AddSubmissionSpec` | src/App.jsx:177-187 | submitTask appends exactly one submission with the fresh id, the task, the student's email, the file name, today's date, a null grade, and the comment or "" when none is given |
| `TaskStore.SubmitCompletes` | src/App.jsx:177-187 | after the user submits for a task, that task is completed for them at every instant |
| `TaskStore.SubmitLeavesOthers` | src/App.jsx:177-187 | submitting changes no status of another task or of another user |
| `TaskStore.RemoveSubmission` | src/App.jsx:195-196 | the result is no longer than the list and holds only records of the list whose id differs (order, counts and the unknown-id case in `RemoveSubmissionSpec`) |
| `TaskStore.RemoveSubmissionSpec` | src/App.jsx:195-196 | deleting by id removes every record with that id and no other; the rest keep their order and occurrence counts; an unknown id leaves the list unchanged |
| `TaskStore.RemoveNeverCompletes` | src/App.jsx:195-196 | deleting never makes a task completed; a task that was not completed keeps its status |
| `TaskStore.RemoveOnlySubmissionReopens` | src/App.jsx:195-196 | deleting the user's only submission for a task makes it overdue or pending again by its due date |
| `TaskStore.SetComment` | src/App.jsx:203-206 | length, ids and task references are kept position by position; a record's comment becomes the new one exactly when its id matches (other fields in `SetCommentSpec`) |
| `TaskStore.SetCommentSpec` | src/App.jsx:203-206 | addComment keeps length and order; each record with the id gets the comment and keeps every other field; every other record is unchanged |
| `TaskStore.SetCommentLastWins` | src/App.jsx:203-206 | commenting twice leaves only the second comment |
| `TaskStore.SetCommentKeepsStatus` | src/App.jsx:203-206 | commenting changes no task's status for anyone |
| `TaskStore.AddTaskKeepsReferences` | src/App.jsx:162-169 | creating a task keeps every submission's task reference valid |
| `TaskStore.AddSubmissionKeepsReferences` | src/App.jsx:177-187 | submitting keeps the references valid exactly when the task submitted for exists |
| `TaskStore.RemoveSubmissionKeepsReferences` | src/App.jsx:195-196 | deleting keeps the references valid |
| `TaskStore.SetCommentKeepsReferences` | src/App.jsx:203-206 | commenting keeps the references valid |
| `TaskStore.Store.constructor` | src/App.jsx:42-45 | the store starts with the given tasks, submissions and roster and nobody logged in |
| `TaskStore.Store.Login` | src/App.jsx:116-129 | on a correct email and password the user becomes that account's session; otherwise the user is unchanged; nothing else changes |
| `TaskStore.Store.CreateTask` | src/App.jsx:162-169 | the task list becomes the old list plus the new task; the reference invariant is kept; nothing else changes |
| `TaskStore.Store.SubmitTask` | src/App.jsx:177-187 | the submission list gets the new submission appended; every task with that id is then completed for the user; nothing else changes |
| `TaskStore.Store.DeleteSubmission` | src/App.jsx:195-196 | the submission list loses the records with the id; an unknown id changes nothing; the reference invariant is kept |
| `TaskStore.Store.AddComment` | src/App.jsx:203-206 | the submission list gets the comment on the records with the id, length unchanged; the reference invariant is kept |

## Left out

- The user interface: forms, dialogs, sidebar, badges, styling, animation and the component library (src/App.jsx:236-974), the current view and the dialog open/close flags.
- Toast notifications: they are feedback only and change no data.
- `handleRegister` and `handleLogout`: they set the user without any check and have no logic to prove.
- The sample data seeded at start-up: the `Store` constructor takes any initial contents instead.
- The course list: it only feeds a selector and no operation reads it.
- The real clock and date-string parsing: `now` and `today` are parameters. An unparsable due date (which JavaScript compares as never earlier than now) is not modelled.
- `Date.now()` id generation: the id is a parameter.
- File objects: only the file name is kept.
- Case folding beyond Basic Latin and Latin-1, and characters whose lower case has a different length, such as U+0130: `Text.Lower` leaves them unchanged.
- Classroom.Authenticate: keys inherited from JavaScript's object prototype (such as `constructor`) are not part of the table. They never log in anyway, because their stored "password" is undefined and the typed password is a string.
- TaskStore.Store.CreateTask: requires a logged-in user; the source reads `user.email` and throws when nobody is logged in, and that exception path is not modelled. Every call site runs with a user set.
- TaskStore.Store.SubmitTask: requires a logged-in user, for the same reason: the source reads `user.email` and throws without one.
- The clock per status: the source reads a fresh `new Date()` on every status computation (src/App.jsx:216), so the search and the pending list may each see a slightly later instant; the model uses one `now` per view.
- The resubmit button, which calls delete and then upload in one event: both handlers read the same render-time submission list, so the effect depends on React's batching. Each handler is modelled as its own transition.
