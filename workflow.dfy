/** Workflow guards (`app/utils/workflow.py`): who may move a task to the
    next status. The status machine is To Do / In Progress / Returned ->
    Submitted for Review -> Approved or Returned -> Completed. */
module Workflow {
  import opened Basics
  import opened Entities
  import opened Hierarchy

  /** `can_submit_for_review`: the assignee, from To Do, In Progress or Returned. */
  predicate CanSubmitForReview(user: User, t: Task) {
    t.assignedToId == Some(user.id) && t.status in [TO_DO, IN_PROGRESS, RETURNED]
  }

  /** `can_review_task`: someone who may assign work to the task's assignee,
      while the task is in review. */
  function CanReviewTask(users: seq<User>, user: Option<User>, t: Task): bool
    requires Acyclic(users)
  {
    var assignee := Assignee(users, t);
    if assignee.None? then false
    else CanAssignTask(users, user, assignee) && t.status == SUBMITTED
  }

  /** `can_complete_task`: an admin from any status, anyone once approved. */
  predicate CanCompleteTask(user: User, t: Task) {
    IsAdmin(user) || t.status == APPROVED
  }

  /** Review is refused for a task without an assignee row; otherwise it is
      allowed exactly to an admin, to the assignee, and to anyone the assignee
      reports to, and only while the task is in review. */
  lemma CanReviewTaskSpec(users: seq<User>, user: Option<User>, t: Task)
    requires Acyclic(users)
    ensures Assignee(users, t).None? ==> !CanReviewTask(users, user, t)
    ensures Assignee(users, t).Some? ==>
      (CanReviewTask(users, user, t) <==>
        && user.Some?
        && (|| IsAdmin(user.value)
            || user.value.id == Assignee(users, t).value.id
            || ReportsTo(users, Assignee(users, t).value.id, user.value.id))
        && t.status == SUBMITTED)
  {
    CanAssignTaskSpec(users, user, Assignee(users, t));
  }

  /** Because self-assignment is allowed, the assignee may approve or return
      their own submission. */
  lemma AssigneeMayReviewOwnSubmission(users: seq<User>, u: User, t: Task)
    requires Acyclic(users) && UniqueUserIds(users) && u in users
    requires t.assignedToId == Some(u.id) && t.status == SUBMITTED
    ensures CanReviewTask(users, Some(u), t)
  {
    FindUserUnique(users, u);
  }

  /** Submitting and reviewing are never both allowed on one task, whoever asks. */
  lemma SubmitAndReviewExclusive(users: seq<User>, u: User, v: Option<User>, t: Task)
    requires Acyclic(users)
    ensures !(CanSubmitForReview(u, t) && CanReviewTask(users, v, t))
  {
  }
}
