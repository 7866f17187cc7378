/**
 * The data of the classroom task manager and the views derived from it:
 * the status of a task for the logged-in user, the task search with its
 * status filter, the due-date ordering of pending tasks, the teacher's
 * student search and the credential check.
 */
module Classroom {
  import opened Wrappers
  import opened Sequences
  import opened Text

  /** A moment, in milliseconds since the Unix epoch. */
  type Instant = int

  /** Milliseconds in a day. */
  const DayMs: int := 86_400_000

  /** The instant 2024-01-01T00:00:00Z, used by the example dates. */
  const Jan1st2024: Instant := 1_704_067_200_000

  type Email = string

  datatype Role = TeacherRole | StudentRole

  datatype Priority = Low | Medium | High

  /** The three states a task can be in for one student. */
  datatype Status = Pending | Completed | Overdue

  /** The student's status selector: every task, or only tasks in one status. */
  datatype StatusFilter = AllStatuses | Only(wanted: Status)

  /**
   * An assignment. `dueDate` is the instant its due day begins (a date
   * string `YYYY-MM-DD` denotes midnight UTC). `status` is the stored
   * field, which no view reads: the status shown is always derived.
   */
  datatype Task = Task(
    id: int,
    title: string,
    description: string,
    dueDate: Instant,
    course: string,
    status: string,
    priority: Priority,
    createdBy: Email)

  /** A student's delivered work for one task; only the file's name is kept. */
  datatype Submission = Submission(
    id: int,
    taskId: int,
    studentEmail: Email,
    fileName: string,
    submittedAt: Instant,
    comments: string,
    grade: Option<int>)

  /** A student of the roster the teacher searches. */
  datatype Student = Student(email: Email, name: string, course: string)

  /** The session of the logged-in user. */
  datatype User = User(email: Email, role: Role, name: string)

  /** One entry of the credential table. */
  datatype Credential = Credential(password: string, role: Role, name: string)

  // ---------------------------------------------------------------------
  // Task status

  /** `s` is `user`'s submission for the task with id `taskId`; nobody submits when no one is logged in. */
  predicate SubmittedBy(s: Submission, taskId: int, user: Option<User>) {
    user.Some? && s.taskId == taskId && s.studentEmail == user.value.email
  }

  /** Some submission in `subs` is the logged-in user's work for `task`. */
  predicate HasSubmission(subs: seq<Submission>, task: Task, user: Option<User>) {
    exists s :: s in subs && SubmittedBy(s, task.id, user)
  }

  /**
   * getTaskStatus: a task the user has submitted is completed, however late;
   * otherwise it is overdue once its due instant has passed, and pending before.
   */
  function TaskStatus(task: Task, subs: seq<Submission>, user: Option<User>, now: Instant): (st: Status)
    ensures st == Completed <==> HasSubmission(subs, task, user)
    ensures st == Overdue <==> !HasSubmission(subs, task, user) && task.dueDate < now
    ensures st == Pending <==> !HasSubmission(subs, task, user) && now <= task.dueDate
  {
    if HasSubmission(subs, task, user) then Completed
    else if task.dueDate < now then Overdue
    else Pending
  }

  /** A submission makes the task completed at every instant, even long after its due date. */
  lemma CompletionWinsOverLateness(task: Task, subs: seq<Submission>, user: Option<User>, s: Submission, now: Instant)
    requires s in subs && SubmittedBy(s, task.id, user)
    ensures TaskStatus(task, subs, user, now) == Completed
  {
  }

  /** Without a submission, time only moves a task from pending to overdue, never back. */
  lemma StatusMonotoneInTime(task: Task, subs: seq<Submission>, user: Option<User>, earlier: Instant, later: Instant)
    requires earlier <= later
    ensures TaskStatus(task, subs, user, earlier) == Overdue ==> TaskStatus(task, subs, user, later) == Overdue
    ensures TaskStatus(task, subs, user, later) == Pending ==> TaskStatus(task, subs, user, earlier) == Pending
  {
  }

  /** The stored `status` field has no influence on the status shown. */
  lemma StoredStatusIgnored(task: Task, stored: string, subs: seq<Submission>, user: Option<User>, now: Instant)
    ensures TaskStatus(task.(status := stored), subs, user, now) == TaskStatus(task, subs, user, now)
  {
  }

  /** A task due 2024-01-15 with no submission: pending on 2024-01-10, overdue on 2024-01-20. */
  lemma DueDateScenario(task: Task, subs: seq<Submission>, user: Option<User>)
    requires task.dueDate == Jan1st2024 + 14 * DayMs
    requires !HasSubmission(subs, task, user)
    ensures TaskStatus(task, subs, user, Jan1st2024 + 9 * DayMs) == Pending
    ensures TaskStatus(task, subs, user, Jan1st2024 + 19 * DayMs) == Overdue
  {
  }

  // ---------------------------------------------------------------------
  // Task search

  /** The term occurs, ignoring case, in the task's title or description. */
  predicate MatchesSearch(task: Task, term: string) {
    Matches(task.title, term) || Matches(task.description, term)
  }

  /** Only a logged-in student's task list is narrowed by status. */
  predicate IsStudent(user: Option<User>) {
    user.Some? && user.value.role == StudentRole
  }

  predicate PassesStatusFilter(st: Status, filter: StatusFilter) {
    filter == AllStatuses || st == filter.wanted
  }

  /** The test filteredTasks applies to each task. */
  function KeepTask(subs: seq<Submission>, user: Option<User>, now: Instant, term: string, filter: StatusFilter): (keep: Task -> bool)
    ensures forall t :: keep(t) ==> MatchesSearch(t, term)
    ensures forall t :: IsStudent(user) && filter.Only? && keep(t) ==> TaskStatus(t, subs, user, now) == filter.wanted
    ensures forall t :: !IsStudent(user) ==> (keep(t) <==> MatchesSearch(t, term))
  {
    t => MatchesSearch(t, term) && (IsStudent(user) ==> PassesStatusFilter(TaskStatus(t, subs, user, now), filter))
  }

  /** filteredTasks: the tasks the search box and, for students, the status selector let through. */
  function FilteredTasks(tasks: seq<Task>, subs: seq<Submission>, user: Option<User>, now: Instant,
                         term: string, filter: StatusFilter): (r: seq<Task>)
    ensures |r| <= |tasks|
    ensures forall t :: t in r ==> t in tasks && MatchesSearch(t, term)
  {
    Filter(tasks, KeepTask(subs, user, now, term, filter))
  }

  /**
   * The search keeps tasks in their order, keeps exactly the tasks that match
   * the term, and for a student with a status selected, only tasks in that status.
   */
  lemma FilteredTasksSpec(tasks: seq<Task>, subs: seq<Submission>, user: Option<User>, now: Instant,
                          term: string, filter: StatusFilter)
    ensures IsSubsequence(FilteredTasks(tasks, subs, user, now, term, filter), tasks)
    ensures forall t :: t in FilteredTasks(tasks, subs, user, now, term, filter) ==> t in tasks && MatchesSearch(t, term)
    ensures IsStudent(user) && filter.Only? ==>
      forall t :: t in FilteredTasks(tasks, subs, user, now, term, filter) ==> TaskStatus(t, subs, user, now) == filter.wanted
    ensures forall t ::
      (t in tasks && MatchesSearch(t, term) && (IsStudent(user) ==> PassesStatusFilter(TaskStatus(t, subs, user, now), filter)))
      ==> t in FilteredTasks(tasks, subs, user, now, term, filter)
    ensures forall t ::
      multiset(FilteredTasks(tasks, subs, user, now, term, filter))[t]
      == (if KeepTask(subs, user, now, term, filter)(t) then multiset(tasks)[t] else 0)
  {
    FilterIsSubsequence(tasks, KeepTask(subs, user, now, term, filter));
    forall t ensures multiset(FilteredTasks(tasks, subs, user, now, term, filter))[t]
      == (if KeepTask(subs, user, now, term, filter)(t) then multiset(tasks)[t] else 0)
    {
      FilterCount(tasks, KeepTask(subs, user, now, term, filter), t);
    }
  }

  /** Teachers are never narrowed by status: their search ignores the selector. */
  lemma TeacherIgnoresStatusFilter(tasks: seq<Task>, subs: seq<Submission>, user: Option<User>, now: Instant,
                                   term: string, f1: StatusFilter, f2: StatusFilter)
    requires !IsStudent(user)
    ensures FilteredTasks(tasks, subs, user, now, term, f1) == FilteredTasks(tasks, subs, user, now, term, f2)
  {
    FilterCongruent(tasks, KeepTask(subs, user, now, term, f1), KeepTask(subs, user, now, term, f2));
  }

  /** An empty term with every status selected (or a non-student) shows every task. */
  lemma FilteredTasksEmptyTermKeepsAll(tasks: seq<Task>, subs: seq<Submission>, user: Option<User>, now: Instant,
                                       filter: StatusFilter)
    requires filter == AllStatuses || !IsStudent(user)
    ensures FilteredTasks(tasks, subs, user, now, "", filter) == tasks
  {
    forall t | t in tasks ensures KeepTask(subs, user, now, "", filter)(t) {
      EmptyTermMatches(t.title);
    }
    FilterKeepsAll(tasks, KeepTask(subs, user, now, "", filter));
  }

  /** Searching the search result again with the same inputs gives the same result. */
  lemma FilteredTasksIdempotent(tasks: seq<Task>, subs: seq<Submission>, user: Option<User>, now: Instant,
                                term: string, filter: StatusFilter)
    ensures FilteredTasks(FilteredTasks(tasks, subs, user, now, term, filter), subs, user, now, term, filter)
         == FilteredTasks(tasks, subs, user, now, term, filter)
  {
    FilterIdempotent(tasks, KeepTask(subs, user, now, term, filter));
  }

  /** Terms that differ only in case select the same tasks. */
  lemma FilteredTasksCaseInsensitive(tasks: seq<Task>, subs: seq<Submission>, user: Option<User>, now: Instant,
                                     term1: string, term2: string, filter: StatusFilter)
    requires Lower(term1) == Lower(term2)
    ensures FilteredTasks(tasks, subs, user, now, term1, filter) == FilteredTasks(tasks, subs, user, now, term2, filter)
  {
    FilterCongruent(tasks, KeepTask(subs, user, now, term1, filter), KeepTask(subs, user, now, term2, filter));
  }

  /** "BIOLOGÍA" and "biología" find the same tasks. */
  lemma SearchIgnoresAccentedCapitals(tasks: seq<Task>, subs: seq<Submission>, user: Option<User>, now: Instant,
                                      filter: StatusFilter)
    ensures FilteredTasks(tasks, subs, user, now, "BIOLOGÍA", filter) == FilteredTasks(tasks, subs, user, now, "biología", filter)
  {
    AccentedCapitalsFold();
    FilteredTasksCaseInsensitive(tasks, subs, user, now, "BIOLOGÍA", "biología", filter);
  }

  // ---------------------------------------------------------------------
  // Pending tasks, earliest due date first

  /** The order the student's pending list is shown in: due dates never decrease. */
  ghost predicate SortedByDueDate(ts: seq<Task>) {
    forall i, j :: 0 <= i < j < |ts| ==> ts[i].dueDate <= ts[j].dueDate
  }

  /** Places `t` before the first task due no earlier than it. */
  function InsertByDueDate(t: Task, sorted: seq<Task>): (r: seq<Task>)
    ensures multiset(r) == multiset(sorted) + multiset{t}
  {
    if sorted == [] || t.dueDate <= sorted[0].dueDate then [t] + sorted
    else
      assert sorted == [sorted[0]] + sorted[1..];
      [sorted[0]] + InsertByDueDate(t, sorted[1..])
  }

  /** Array.prototype.sort with comparator `a.dueDate - b.dueDate`, which is stable. */
  function SortByDueDate(ts: seq<Task>): (r: seq<Task>)
    ensures multiset(r) == multiset(ts)
  {
    if ts == [] then []
    else
      assert ts == [ts[0]] + ts[1..];
      InsertByDueDate(ts[0], SortByDueDate(ts[1..]))
  }

  /** Picks out the tasks due at instant `d`. */
  function DueAt(d: Instant): (r: Task -> bool)
    ensures forall t :: r(t) <==> t.dueDate == d
  {
    (t: Task) => t.dueDate == d
  }

  lemma {:induction false} InsertByDueDateSpec(t: Task, sorted: seq<Task>)
    requires SortedByDueDate(sorted)
    ensures SortedByDueDate(InsertByDueDate(t, sorted))
    ensures multiset(InsertByDueDate(t, sorted)) == multiset(sorted) + multiset{t}
  {
    if sorted == [] || t.dueDate <= sorted[0].dueDate {
    } else {
      var rest := InsertByDueDate(t, sorted[1..]);
      InsertByDueDateSpec(t, sorted[1..]);
      assert sorted == [sorted[0]] + sorted[1..];
      forall x | x in rest ensures sorted[0].dueDate <= x.dueDate {
        assert x in multiset(rest);
      }
    }
  }

  /** Insertion puts `t` after no task due at the same instant: among equal due dates, `t` comes first. */
  lemma {:induction false} InsertByDueDateStable(t: Task, sorted: seq<Task>, d: Instant)
    ensures Filter(InsertByDueDate(t, sorted), DueAt(d)) == Filter([t] + sorted, DueAt(d))
  {
    if sorted == [] || t.dueDate <= sorted[0].dueDate {
    } else {
      InsertByDueDateStable(t, sorted[1..], d);
      assert ([t] + sorted)[1..] == sorted;
      assert ([t] + sorted[1..])[1..] == sorted[1..];
      assert ([sorted[0]] + InsertByDueDate(t, sorted[1..]))[1..] == InsertByDueDate(t, sorted[1..]);
    }
  }

  /** Sorting orders by due date, keeps every task exactly as often, and keeps equal due dates in their order. */
  lemma {:induction false} SortByDueDateSpec(ts: seq<Task>)
    ensures SortedByDueDate(SortByDueDate(ts))
    ensures multiset(SortByDueDate(ts)) == multiset(ts)
    ensures forall d :: Filter(SortByDueDate(ts), DueAt(d)) == Filter(ts, DueAt(d))
  {
    if ts != [] {
      SortByDueDateSpec(ts[1..]);
      InsertByDueDateSpec(ts[0], SortByDueDate(ts[1..]));
      assert ts == [ts[0]] + ts[1..];
      forall d ensures Filter(SortByDueDate(ts), DueAt(d)) == Filter(ts, DueAt(d)) {
        InsertByDueDateStable(ts[0], SortByDueDate(ts[1..]), d);
        assert ([ts[0]] + SortByDueDate(ts[1..]))[1..] == SortByDueDate(ts[1..]);
      }
    }
  }

  /** Picks out the tasks in status `wanted` for the user at `now`. */
  function StatusIs(subs: seq<Submission>, user: Option<User>, now: Instant, wanted: Status): (r: Task -> bool)
    ensures forall t :: r(t) <==> TaskStatus(t, subs, user, now) == wanted
  {
    t => TaskStatus(t, subs, user, now) == wanted
  }

  /** pendingTasks, ordered as the student dashboard lists them. */
  function PendingTasks(shown: seq<Task>, subs: seq<Submission>, user: Option<User>, now: Instant): (r: seq<Task>)
    ensures SortedByDueDate(r)
    ensures forall t :: t in r ==> t in shown && TaskStatus(t, subs, user, now) == Pending
  {
    var pending := Filter(shown, StatusIs(subs, user, now, Pending));
    SortByDueDateSpec(pending);
    assert forall t :: t in SortByDueDate(pending) ==> t in multiset(pending);
    SortByDueDate(pending)
  }

  /** The pending list holds exactly the shown pending tasks, earliest due first, ties in shown order. */
  lemma PendingTasksSpec(shown: seq<Task>, subs: seq<Submission>, user: Option<User>, now: Instant)
    ensures SortedByDueDate(PendingTasks(shown, subs, user, now))
    ensures forall t :: t in PendingTasks(shown, subs, user, now) <==>
      t in shown && TaskStatus(t, subs, user, now) == Pending
    ensures forall t ::
      multiset(PendingTasks(shown, subs, user, now))[t] == (if TaskStatus(t, subs, user, now) == Pending then multiset(shown)[t] else 0)
    ensures forall d :: Filter(PendingTasks(shown, subs, user, now), DueAt(d))
                     == Filter(Filter(shown, StatusIs(subs, user, now, Pending)), DueAt(d))
  {
    var pending := Filter(shown, StatusIs(subs, user, now, Pending));
    SortByDueDateSpec(pending);
    forall t
      ensures multiset(PendingTasks(shown, subs, user, now))[t] == (if TaskStatus(t, subs, user, now) == Pending then multiset(shown)[t] else 0)
    {
      FilterCount(shown, StatusIs(subs, user, now, Pending), t);
    }
    forall t ensures t in PendingTasks(shown, subs, user, now) <==> t in pending {
      assert t in PendingTasks(shown, subs, user, now) <==> t in multiset(PendingTasks(shown, subs, user, now));
      assert t in pending <==> t in multiset(pending);
    }
  }

  /** A student who selects completed or overdue tasks sees an empty pending list. */
  lemma PendingEmptyUnderOtherFilter(tasks: seq<Task>, subs: seq<Submission>, user: Option<User>, now: Instant,
                                     term: string, wanted: Status)
    requires IsStudent(user) && wanted != Pending
    ensures PendingTasks(FilteredTasks(tasks, subs, user, now, term, Only(wanted)), subs, user, now) == []
  {
    FilteredTasksSpec(tasks, subs, user, now, term, Only(wanted));
  }

  // ---------------------------------------------------------------------
  // The teacher's student search

  function NameMatches(term: string): (r: Student -> bool)
    ensures forall st :: r(st) <==> Matches(st.name, term)
  {
    (st: Student) => Matches(st.name, term)
  }

  /** The roster entries whose name contains the term, ignoring case. */
  function StudentsMatching(students: seq<Student>, term: string): (r: seq<Student>)
    ensures |r| <= |students|
    ensures forall st :: st in r ==> st in students && Matches(st.name, term)
  {
    Filter(students, NameMatches(term))
  }

  /** The student search keeps roster order, keeps exactly the matching names, and an empty term keeps everyone. */
  lemma StudentsMatchingSpec(students: seq<Student>, term: string)
    ensures IsSubsequence(StudentsMatching(students, term), students)
    ensures forall st :: st in StudentsMatching(students, term) <==> st in students && Matches(st.name, term)
    ensures term == "" ==> StudentsMatching(students, term) == students
    ensures forall st ::
      multiset(StudentsMatching(students, term))[st]
      == (if Matches(st.name, term) then multiset(students)[st] else 0)
  {
    FilterIsSubsequence(students, NameMatches(term));
    forall st ensures multiset(StudentsMatching(students, term))[st]
      == (if Matches(st.name, term) then multiset(students)[st] else 0)
    {
      FilterCount(students, NameMatches(term), st);
    }
    if term == "" {
      forall st | st in students ensures NameMatches(term)(st) {
        EmptyTermMatches(st.name);
      }
      FilterKeepsAll(students, NameMatches(term));
    }
  }

  // ---------------------------------------------------------------------
  // Credential check

  /** The fixed table handleLogin consults. */
  function Credentials(): (table: map<Email, Credential>)
    ensures table.Keys == {"profesor@ejemplo.com", "estudiante@ejemplo.com"}
    ensures forall e :: e in table ==> table[e].password == "123456"
    ensures table["profesor@ejemplo.com"].role == TeacherRole && table["estudiante@ejemplo.com"].role == StudentRole
  {
    map[
      "profesor@ejemplo.com" := Credential("123456", TeacherRole, "Profesor Ejemplo"),
      "estudiante@ejemplo.com" := Credential("123456", StudentRole, "Juan Pérez")
    ]
  }

  /** The session a login attempt opens, or None when the email is unknown or the password differs. */
  function Authenticate(table: map<Email, Credential>, email: Email, password: string): (u: Option<User>)
    ensures u.Some? <==> email in table && table[email].password == password
    ensures u.Some? ==> u.value.email == email && u.value.role == table[email].role && u.value.name == table[email].name
  {
    if email in table && table[email].password == password then
      Some(User(email, table[email].role, table[email].name))
    else
      None
  }

  /** Only the exact stored password opens a session, and it opens it with the stored role and name. */
  lemma DemoLogins()
    ensures Authenticate(Credentials(), "profesor@ejemplo.com", "123456") == Some(User("profesor@ejemplo.com", TeacherRole, "Profesor Ejemplo"))
    ensures Authenticate(Credentials(), "estudiante@ejemplo.com", "123456") == Some(User("estudiante@ejemplo.com", StudentRole, "Juan Pérez"))
    ensures Authenticate(Credentials(), "profesor@ejemplo.com", "1234567") == None
    ensures Authenticate(Credentials(), "maria@ejemplo.com", "123456") == None
  {
  }
}
