/** Task creation, editing and the workflow transitions
    (`app/services/task_service.py`). The service checks no guard: callers
    decide who may call it. "Now" is a parameter. */
module TaskService {
  import opened Basics
  import opened Entities
  import opened Text
  import opened Store
  import opened Hierarchy
  import opened Workflow
  import opened Permissions

  /** `s.strip() or None`: the trimmed text, or none when nothing but whitespace is left. */
  function CleanRemarks(s: string): (r: Option<string>)
    ensures r.None? <==> forall k :: 0 <= k < |s| ==> IsSpace(s[k])
    ensures r.Some? ==> r.value == Trim(s) && r.value != []
    ensures r.Some? ==> !IsSpace(r.value[0]) && !IsSpace(r.value[|r.value| - 1])
  {
    TrimSpec(s);
    var c := Trim(s);
    if c == [] then None
    else
      assert c[0] == s[SkipSpaces(s, 0)];
      Some(c)
  }

  /** The remark column after a transition: unchanged when no remarks were
      passed, the cleaned remarks otherwise. */
  function NewRemarks(current: Option<string>, given: Option<string>): Option<string> {
    if given.None? then current else CleanRemarks(given.value)
  }

  /** The row `create_task` inserts. */
  function NewTask(id: nat, title: string, typeId: int, finalDeadline: Date, priority: string,
                   assignedToId: Option<int>, folderLink: Option<string>, description: Option<string>,
                   startDate: Option<Date>, now: Timestamp): Task
  {
    Task(id, title, description, TO_DO, priority, typeId, assignedToId, startDate, finalDeadline, now,
         None, None, false, folderLink, None, None)
  }

  /** `submit_for_review` on one task row. */
  function Submitted(t: Task, remarks: Option<string>, now: Timestamp): Task {
    t.(status := SUBMITTED, submissionRemarks := NewRemarks(t.submissionRemarks, remarks), submittedAt := Some(now))
  }

  /** `approve_task` on one task row. */
  function Approved(t: Task): Task {
    t.(status := APPROVED)
  }

  /** `return_task` on one task row. */
  function Returned(t: Task): Task {
    t.(status := RETURNED)
  }

  /** `complete_task` on one task row. */
  function Completed(t: Task, remarks: Option<string>, now: Timestamp): Task {
    t.(status := COMPLETED, completionRemarks := NewRemarks(t.completionRemarks, remarks), completedAt := Some(now))
  }

  /** `create_task`: appends a To Do row with a fresh primary key and the given fields. */
  method CreateTask(db: Database, title: string, typeId: int, finalDeadline: Date, priority: string,
                    assignedToId: Option<int>, folderLink: Option<string>, description: Option<string>,
                    startDate: Option<Date>, now: Timestamp) returns (t: Task)
    modifies db`tasks
    ensures t == NewTask(NextId(old(db.tasks), (x: Task) => x.id), title, typeId, finalDeadline, priority,
                         assignedToId, folderLink, description, startDate, now)
    ensures forall u :: u in old(db.tasks) ==> u.id != t.id
    ensures db.tasks == old(db.tasks) + [t]
  {
    var id := NextId(db.tasks, (x: Task) => x.id);
    t := NewTask(id, title, typeId, finalDeadline, priority, assignedToId, folderLink, description, startDate, now);
    db.tasks := db.tasks + [t];
  }

  /** `update_task`: overwrites exactly title, type, priority, deadline,
      assignee, folder link and description of row `i`. */
  method UpdateTask(db: Database, i: nat, title: string, typeId: int, priority: string, finalDeadline: Date,
                    assignedToId: Option<int>, folderLink: Option<string>, description: Option<string>)
    requires i < |db.tasks|
    modifies db`tasks
    ensures |db.tasks| == |old(db.tasks)|
    ensures forall j :: 0 <= j < |db.tasks| && j != i ==> db.tasks[j] == old(db.tasks[j])
    ensures db.tasks[i] == old(db.tasks[i]).(title := title, typeId := typeId, priority := priority,
      finalDeadline := finalDeadline, assignedToId := assignedToId, folderLink := folderLink,
      description := description)
  {
    var t := db.tasks[i];
    t := t.(title := title);
    t := t.(typeId := typeId);
    t := t.(priority := priority);
    t := t.(finalDeadline := finalDeadline);
    t := t.(assignedToId := assignedToId);
    t := t.(folderLink := folderLink);
    t := t.(description := description);
    db.tasks := db.tasks[i := t];
  }

  /** `archive_task`: sets only the archived flag of row `i`. */
  method ArchiveTask(db: Database, i: nat)
    requires i < |db.tasks|
    modifies db`tasks
    ensures db.tasks == old(db.tasks)[i := old(db.tasks[i]).(archived := true)]
  {
    db.tasks := db.tasks[i := db.tasks[i].(archived := true)];
  }

  /** `submit_for_review` on row `i`. */
  method SubmitForReview(db: Database, i: nat, remarks: Option<string>, now: Timestamp)
    requires i < |db.tasks|
    modifies db`tasks
    ensures db.tasks == old(db.tasks)[i := Submitted(old(db.tasks[i]), remarks, now)]
  {
    var t := db.tasks[i].(status := SUBMITTED);
    if remarks.Some? {
      t := t.(submissionRemarks := CleanRemarks(remarks.value));
    }
    t := t.(submittedAt := Some(now));
    db.tasks := db.tasks[i := t];
  }

  /** `approve_task` on row `i`. */
  method ApproveTask(db: Database, i: nat)
    requires i < |db.tasks|
    modifies db`tasks
    ensures db.tasks == old(db.tasks)[i := Approved(old(db.tasks[i]))]
  {
    db.tasks := db.tasks[i := db.tasks[i].(status := APPROVED)];
  }

  /** `return_task` on row `i`. */
  method ReturnTask(db: Database, i: nat)
    requires i < |db.tasks|
    modifies db`tasks
    ensures db.tasks == old(db.tasks)[i := Returned(old(db.tasks[i]))]
  {
    db.tasks := db.tasks[i := db.tasks[i].(status := RETURNED)];
  }

  /** `complete_task` on row `i`: `completed_at` is always overwritten. */
  method CompleteTask(db: Database, i: nat, remarks: Option<string>, now: Timestamp)
    requires i < |db.tasks|
    modifies db`tasks
    ensures db.tasks == old(db.tasks)[i := Completed(old(db.tasks[i]), remarks, now)]
  {
    var t := db.tasks[i].(status := COMPLETED);
    if remarks.Some? {
      t := t.(completionRemarks := CleanRemarks(remarks.value));
    }
    t := t.(completedAt := Some(now));
    db.tasks := db.tasks[i := t];
  }

  // ---------------------------------------------------------------------
  // The status machine: what each transition enables

  /** After a permitted submission the task is in review: the assignee can no
      longer submit it, and the assignee, an admin, or anyone the assignee
      reports to can review it. */
  lemma SubmitEnablesReview(users: seq<User>, a: User, reviewer: User, t: Task, remarks: Option<string>, now: Timestamp)
    requires Acyclic(users)
    requires CanSubmitForReview(a, t) && Assignee(users, t) == Some(a)
    requires IsAdmin(reviewer) || reviewer.id == a.id || ReportsTo(users, a.id, reviewer.id)
    ensures !CanSubmitForReview(a, Submitted(t, remarks, now))
    ensures CanReviewTask(users, Some(reviewer), Submitted(t, remarks, now))
  {
    CanReviewTaskSpec(users, Some(reviewer), Submitted(t, remarks, now));
  }

  /** A task returned after a permitted review can be submitted again by its assignee. */
  lemma ReturnAllowsResubmission(users: seq<User>, v: Option<User>, a: User, t: Task)
    requires Acyclic(users)
    requires CanReviewTask(users, v, t) && Assignee(users, t) == Some(a)
    ensures CanSubmitForReview(a, Returned(t))
    ensures !CanReviewTask(users, v, Returned(t))
  {
  }

  /** An approved task can be completed by anyone and is no longer reviewable or submittable. */
  lemma ApprovalAllowsCompletion(users: seq<User>, u: User, v: Option<User>, t: Task)
    requires Acyclic(users)
    ensures CanCompleteTask(u, Approved(t))
    ensures !CanReviewTask(users, v, Approved(t)) && !CanSubmitForReview(u, Approved(t))
  {
  }

  /** A completed task can no longer be submitted, reviewed or edited by
      anyone; only an admin can complete it again. */
  lemma CompletedIsFinal(users: seq<User>, u: User, v: Option<User>, t: Task, remarks: Option<string>, now: Timestamp)
    requires Acyclic(users)
    ensures var c := Completed(t, remarks, now);
      && !CanSubmitForReview(u, c)
      && !CanReviewTask(users, v, c)
      && !CanEditTask(users, Some(u), Some(c))
      && (CanCompleteTask(u, c) <==> IsAdmin(u))
  {
  }
}
