/**
 * The in-memory store of the application (its `tasks`, `submissions` and
 * `user` state) and the handlers that replace those fields: createTask,
 * submitTask, deleteSubmission, addComment and handleLogin. Each handler's
 * new value is given by a function of the old one, and the lemmas below say
 * what those functions keep and what they change.
 */
module TaskStore {
  import opened Wrappers
  import opened Sequences
  import opened Classroom

  /**
   * What the task form hands to createTask. The form fills in title through
   * priority; `id`, `status` and `createdBy` are only present if a caller
   * puts them there.
   */
  datatype TaskDraft = TaskDraft(
    id: Option<int>,
    title: string,
    description: string,
    dueDate: Instant,
    course: string,
    priority: Priority,
    status: Option<string>,
    createdBy: Option<Email>)

  /**
   * The object `{ id: freshId, ...draft, status: 'pending', createdBy: creator }`:
   * an id in the draft overrides the generated one, while a status or creator
   * in the draft is overwritten.
   */
  function NewTask(draft: TaskDraft, freshId: int, creator: Email): (t: Task)
    ensures t.status == "pending" && t.createdBy == creator
    ensures draft.id == None ==> t.id == freshId
    ensures draft.id.Some? ==> t.id == draft.id.value
  {
    Task(draft.id.GetOr(freshId), draft.title, draft.description, draft.dueDate,
         draft.course, "pending", draft.priority, creator)
  }

  /** createTask's new task list. */
  function AddTask(tasks: seq<Task>, draft: TaskDraft, freshId: int, creator: Email): (r: seq<Task>)
    ensures |r| == |tasks| + 1 && r[..|tasks|] == tasks
    ensures r[|tasks|].status == "pending" && r[|tasks|].createdBy == creator
  {
    tasks + [NewTask(draft, freshId, creator)]
  }

  /** submitTask's new record; a missing comment is stored as the empty string and the grade is null. */
  function NewSubmission(taskId: int, fileName: string, comments: Option<string>, freshId: int,
                         studentEmail: Email, today: Instant): (s: Submission)
    ensures s.id == freshId && s.taskId == taskId && s.studentEmail == studentEmail
    ensures s.grade == None
    ensures comments == None ==> s.comments == ""
  {
    Submission(freshId, taskId, studentEmail, fileName, today, comments.GetOr(""), None)
  }

  /** submitTask's new submission list. */
  function AddSubmission(subs: seq<Submission>, taskId: int, fileName: string, comments: Option<string>,
                         freshId: int, studentEmail: Email, today: Instant): (r: seq<Submission>)
    ensures |r| == |subs| + 1 && r[..|subs|] == subs
    ensures r[|subs|].taskId == taskId && r[|subs|].studentEmail == studentEmail && r[|subs|].grade == None
  {
    subs + [NewSubmission(taskId, fileName, comments, freshId, studentEmail, today)]
  }

  function IdIsNot(id: int): (r: Submission -> bool)
    ensures forall s :: r(s) <==> s.id != id
  {
    (s: Submission) => s.id != id
  }

  /** deleteSubmission's new list: `submissions.filter(s => s.id !== id)`. */
  function RemoveSubmission(subs: seq<Submission>, id: int): (r: seq<Submission>)
    ensures |r| <= |subs|
    ensures forall s :: s in r ==> s in subs && s.id != id
  {
    Filter(subs, IdIsNot(id))
  }

  function CommentIf(id: int, comment: string): (r: Submission -> Submission) {
    (s: Submission) => if s.id == id then s.(comments := comment) else s
  }

  /** addComment's new list: `submissions.map(s => s.id === id ? { ...s, comments } : s)`. */
  function SetComment(subs: seq<Submission>, id: int, comment: string): (r: seq<Submission>)
    ensures |r| == |subs|
    ensures forall i :: 0 <= i < |r| ==> r[i].id == subs[i].id && r[i].taskId == subs[i].taskId
    ensures forall i :: 0 <= i < |r| ==> r[i].comments == if subs[i].id == id then comment else subs[i].comments
  {
    Map(subs, CommentIf(id, comment))
  }

  // ---------------------------------------------------------------------
  // createTask

  /**
   * Creating a task appends exactly one task; it is stamped "pending" and with
   * the creator's email whatever the draft said, and takes every other field
   * from the draft.
   */
  lemma AddTaskSpec(tasks: seq<Task>, draft: TaskDraft, freshId: int, creator: Email)
    ensures |AddTask(tasks, draft, freshId, creator)| == |tasks| + 1
    ensures AddTask(tasks, draft, freshId, creator)[..|tasks|] == tasks
    ensures var t := AddTask(tasks, draft, freshId, creator)[|tasks|];
      && t.status == "pending" && t.createdBy == creator
      && (draft.id == None ==> t.id == freshId)
      && (draft.id.Some? ==> t.id == draft.id.value)
      && t.title == draft.title && t.description == draft.description && t.dueDate == draft.dueDate
      && t.course == draft.course && t.priority == draft.priority
  {
    assert (tasks + [NewTask(draft, freshId, creator)])[..|tasks|] == tasks;
  }

  /** A new task due in the future, whose id no submission of the user names, shows as pending. */
  lemma NewTaskIsPending(subs: seq<Submission>, draft: TaskDraft, freshId: int, user: User, now: Instant)
    requires now <= draft.dueDate
    requires forall s :: s in subs ==> !SubmittedBy(s, NewTask(draft, freshId, user.email).id, Some(user))
    ensures TaskStatus(NewTask(draft, freshId, user.email), subs, Some(user), now) == Pending
  {
  }

  /** A created task shows up in a search exactly when it matches it; the earlier results are unchanged. */
  lemma AddTaskThenSearch(tasks: seq<Task>, subs: seq<Submission>, user: Option<User>, now: Instant,
                          term: string, filter: StatusFilter, draft: TaskDraft, freshId: int, creator: Email)
    ensures var t := NewTask(draft, freshId, creator);
      FilteredTasks(AddTask(tasks, draft, freshId, creator), subs, user, now, term, filter)
      == FilteredTasks(tasks, subs, user, now, term, filter) + (if KeepTask(subs, user, now, term, filter)(t) then [t] else [])
  {
    FilterAppend(tasks, NewTask(draft, freshId, creator), KeepTask(subs, user, now, term, filter));
  }

  // ---------------------------------------------------------------------
  // submitTask

  /** Submitting appends exactly one record, stamped with the student, the date, a null grade and the comment or "". */
  lemma AddSubmissionSpec(subs: seq<Submission>, taskId: int, fileName: string, comments: Option<string>,
                          freshId: int, studentEmail: Email, today: Instant)
    ensures var r := AddSubmission(subs, taskId, fileName, comments, freshId, studentEmail, today);
      && |r| == |subs| + 1 && r[..|subs|] == subs
      && r[|subs|].id == freshId && r[|subs|].taskId == taskId && r[|subs|].studentEmail == studentEmail
      && r[|subs|].fileName == fileName && r[|subs|].submittedAt == today && r[|subs|].grade == None
      && (comments == None ==> r[|subs|].comments == "")
      && (comments.Some? ==> r[|subs|].comments == comments.value)
  {
    assert (subs + [NewSubmission(taskId, fileName, comments, freshId, studentEmail, today)])[..|subs|] == subs;
  }

  /** After the logged-in user submits work for a task, that task shows as completed for them at every instant. */
  lemma SubmitCompletes(subs: seq<Submission>, task: Task, fileName: string, comments: Option<string>,
                        freshId: int, user: User, today: Instant, now: Instant)
    ensures TaskStatus(task, AddSubmission(subs, task.id, fileName, comments, freshId, user.email, today), Some(user), now)
         == Completed
  {
    var s := NewSubmission(task.id, fileName, comments, freshId, user.email, today);
    assert s in AddSubmission(subs, task.id, fileName, comments, freshId, user.email, today);
    assert SubmittedBy(s, task.id, Some(user));
  }

  /** Submitting for one task leaves the status of every other task, and of every other user, as it was. */
  lemma SubmitLeavesOthers(subs: seq<Submission>, taskId: int, fileName: string, comments: Option<string>,
                           freshId: int, studentEmail: Email, today: Instant,
                           task: Task, user: Option<User>, now: Instant)
    requires task.id != taskId || user == None || user.value.email != studentEmail
    ensures TaskStatus(task, AddSubmission(subs, taskId, fileName, comments, freshId, studentEmail, today), user, now)
         == TaskStatus(task, subs, user, now)
  {
    var r := AddSubmission(subs, taskId, fileName, comments, freshId, studentEmail, today);
    assert forall s :: s in r ==> s in subs || s == r[|subs|];
  }

  // ---------------------------------------------------------------------
  // deleteSubmission

  /**
   * Deleting by id removes every record with that id and nothing else: the
   * other records keep their order and their number of occurrences. An id
   * nobody has leaves the list as it was.
   */
  lemma RemoveSubmissionSpec(subs: seq<Submission>, id: int)
    ensures IsSubsequence(RemoveSubmission(subs, id), subs)
    ensures forall s :: s in RemoveSubmission(subs, id) ==> s.id != id
    ensures forall s :: multiset(RemoveSubmission(subs, id))[s] == (if s.id == id then 0 else multiset(subs)[s])
    ensures (forall s :: s in subs ==> s.id != id) ==> RemoveSubmission(subs, id) == subs
  {
    FilterIsSubsequence(subs, IdIsNot(id));
    forall s ensures multiset(RemoveSubmission(subs, id))[s] == (if s.id == id then 0 else multiset(subs)[s]) {
      FilterCount(subs, IdIsNot(id), s);
    }
    if forall s :: s in subs ==> s.id != id {
      FilterKeepsAll(subs, IdIsNot(id));
    }
  }

  /** Deleting a submission never completes a task; a task that was not completed keeps its status. */
  lemma RemoveNeverCompletes(subs: seq<Submission>, id: int, task: Task, user: Option<User>, now: Instant)
    ensures TaskStatus(task, subs, user, now) != Completed ==>
      TaskStatus(task, RemoveSubmission(subs, id), user, now) == TaskStatus(task, subs, user, now)
  {
  }

  /** Deleting the user's only submission for a task takes the task back to pending or overdue. */
  lemma RemoveOnlySubmissionReopens(subs: seq<Submission>, s: Submission, task: Task, user: Option<User>, now: Instant)
    requires s in subs && SubmittedBy(s, task.id, user)
    requires forall s' :: s' in subs && SubmittedBy(s', task.id, user) ==> s'.id == s.id
    ensures TaskStatus(task, subs, user, now) == Completed
    ensures TaskStatus(task, RemoveSubmission(subs, s.id), user, now)
         == (if task.dueDate < now then Overdue else Pending)
  {
  }

  // ---------------------------------------------------------------------
  // addComment

  /**
   * Adding a comment keeps the list's length and order; each record with the
   * id gets the comment and keeps every other field, and every other record
   * is untouched.
   */
  lemma SetCommentSpec(subs: seq<Submission>, id: int, comment: string)
    ensures |SetComment(subs, id, comment)| == |subs|
    ensures forall i :: 0 <= i < |subs| && subs[i].id == id ==>
      SetComment(subs, id, comment)[i] == subs[i].(comments := comment)
    ensures forall i :: 0 <= i < |subs| && subs[i].id != id ==>
      SetComment(subs, id, comment)[i] == subs[i]
  {
  }

  /** Only the last comment added to a record stays. */
  lemma SetCommentLastWins(subs: seq<Submission>, id: int, c1: string, c2: string)
    ensures SetComment(SetComment(subs, id, c1), id, c2) == SetComment(subs, id, c2)
  {
    var once := SetComment(subs, id, c1);
    assert forall i :: 0 <= i < |subs| ==> once[i].id == subs[i].id;
  }

  /** A comment changes no task's status for anyone. */
  lemma SetCommentKeepsStatus(subs: seq<Submission>, id: int, comment: string, task: Task, user: Option<User>, now: Instant)
    ensures TaskStatus(task, SetComment(subs, id, comment), user, now) == TaskStatus(task, subs, user, now)
  {
    var r := SetComment(subs, id, comment);
    if HasSubmission(subs, task, user) {
      var s :| s in subs && SubmittedBy(s, task.id, user);
      var i :| 0 <= i < |subs| && subs[i] == s;
      assert r[i] in r && SubmittedBy(r[i], task.id, user);
    }
    if HasSubmission(r, task, user) {
      var s :| s in r && SubmittedBy(s, task.id, user);
      var i :| 0 <= i < |r| && r[i] == s;
      assert subs[i] in subs && SubmittedBy(subs[i], task.id, user);
    }
  }

  // ---------------------------------------------------------------------
  // Referential integrity: every submission names an existing task.
  // The application never checks it; these lemmas say which handlers keep it.

  ghost predicate ReferencesExist(tasks: seq<Task>, subs: seq<Submission>) {
    forall s :: s in subs ==> exists t :: t in tasks && t.id == s.taskId
  }

  lemma AddTaskKeepsReferences(tasks: seq<Task>, subs: seq<Submission>, draft: TaskDraft, freshId: int, creator: Email)
    requires ReferencesExist(tasks, subs)
    ensures ReferencesExist(AddTask(tasks, draft, freshId, creator), subs)
  {
    forall s | s in subs ensures exists t :: t in AddTask(tasks, draft, freshId, creator) && t.id == s.taskId {
      var t :| t in tasks && t.id == s.taskId;
      assert t in AddTask(tasks, draft, freshId, creator);
    }
  }

  /** Submitting keeps the references valid exactly when the task submitted for exists. */
  lemma AddSubmissionKeepsReferences(tasks: seq<Task>, subs: seq<Submission>, taskId: int, fileName: string,
                                     comments: Option<string>, freshId: int, studentEmail: Email, today: Instant)
    requires ReferencesExist(tasks, subs)
    ensures ReferencesExist(tasks, AddSubmission(subs, taskId, fileName, comments, freshId, studentEmail, today))
        <==> exists t :: t in tasks && t.id == taskId
  {
    var r := AddSubmission(subs, taskId, fileName, comments, freshId, studentEmail, today);
    assert r[|subs|] in r;
    assert forall s :: s in r ==> s in subs || s == r[|subs|];
  }

  lemma RemoveSubmissionKeepsReferences(tasks: seq<Task>, subs: seq<Submission>, id: int)
    requires ReferencesExist(tasks, subs)
    ensures ReferencesExist(tasks, RemoveSubmission(subs, id))
  {
  }

  lemma SetCommentKeepsReferences(tasks: seq<Task>, subs: seq<Submission>, id: int, comment: string)
    requires ReferencesExist(tasks, subs)
    ensures ReferencesExist(tasks, SetComment(subs, id, comment))
  {
    var r := SetComment(subs, id, comment);
    forall s | s in r ensures exists t :: t in tasks && t.id == s.taskId {
      var i :| 0 <= i < |r| && r[i] == s;
      assert subs[i] in subs;
    }
  }

  // ---------------------------------------------------------------------
  // The store

  class Store {
    var tasks: seq<Task>
    var submissions: seq<Submission>
    var user: Option<User>
    /** The roster, never changed after start-up; the teacher's search shows `StudentsMatching(students, term)`. */
    var students: seq<Student>

    /** A store holding the given data and nobody logged in. */
    constructor (tasks0: seq<Task>, submissions0: seq<Submission>, students0: seq<Student>)
      ensures tasks == tasks0 && submissions == submissions0 && students == students0
      ensures user == None
    {
      tasks := tasks0;
      submissions := submissions0;
      students := students0;
      user := None;
    }

    /** handleLogin: opens the session the credential table grants, or leaves the session as it was. */
    method Login(email: Email, password: string) returns (ok: bool)
      modifies this`user
      ensures ok <==> email in Credentials() && Credentials()[email].password == password
      ensures ok ==> user == Some(User(email, Credentials()[email].role, Credentials()[email].name))
      ensures !ok ==> user == old(user)
    {
      var session := Authenticate(Credentials(), email, password);
      ok := session.Some?;
      if ok {
        user := session;
      }
    }

    /** createTask: appends one task created by the logged-in user. */
    method CreateTask(draft: TaskDraft, freshId: int)
      requires user.Some?
      modifies this`tasks
      ensures tasks == AddTask(old(tasks), draft, freshId, user.value.email)
      ensures ReferencesExist(old(tasks), submissions) ==> ReferencesExist(tasks, submissions)
    {
      if ReferencesExist(tasks, submissions) {
        AddTaskKeepsReferences(tasks, submissions, draft, freshId, user.value.email);
      }
      tasks := AddTask(tasks, draft, freshId, user.value.email);
    }

    /** submitTask: appends the logged-in user's submission; the task is then completed for them. */
    method SubmitTask(taskId: int, fileName: string, comments: Option<string>, freshId: int, today: Instant)
      requires user.Some?
      modifies this`submissions
      ensures submissions == AddSubmission(old(submissions), taskId, fileName, comments, freshId, user.value.email, today)
      ensures forall t: Task, now: Instant :: t.id == taskId ==> TaskStatus(t, submissions, user, now) == Completed
    {
      submissions := AddSubmission(submissions, taskId, fileName, comments, freshId, user.value.email, today);
      forall t: Task, now: Instant | t.id == taskId
        ensures TaskStatus(t, submissions, user, now) == Completed
      {
        SubmitCompletes(old(submissions), t, fileName, comments, freshId, user.value, today, now);
      }
    }

    /** deleteSubmission: removes every submission with the id; an unknown id changes nothing. */
    method DeleteSubmission(id: int)
      modifies this`submissions
      ensures submissions == RemoveSubmission(old(submissions), id)
      ensures (forall s :: s in old(submissions) ==> s.id != id) ==> submissions == old(submissions)
      ensures ReferencesExist(tasks, old(submissions)) ==> ReferencesExist(tasks, submissions)
    {
      RemoveSubmissionSpec(submissions, id);
      submissions := RemoveSubmission(submissions, id);
    }

    /** addComment: sets the comment of the submissions with the id. */
    method AddComment(id: int, comment: string)
      modifies this`submissions
      ensures submissions == SetComment(old(submissions), id, comment)
      ensures |submissions| == |old(submissions)|
      ensures ReferencesExist(tasks, old(submissions)) ==> ReferencesExist(tasks, submissions)
    {
      if ReferencesExist(tasks, submissions) {
        SetCommentKeepsReferences(tasks, submissions, id, comment);
      }
      submissions := SetComment(submissions, id, comment);
    }
  }
}
