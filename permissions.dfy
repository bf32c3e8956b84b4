/** Login and admin checks, and the edit permission (`app/utils/permissions.py`). */
module Permissions {
  import opened Basics
  import opened Entities
  import opened Hierarchy

  /** `require_login`: HTTP 401 without a user. */
  function RequireLogin(user: Option<User>): (r: Result<User>)
    ensures r.Err? <==> user.None?
    ensures r.Err? ==> r.code == 401
    ensures r.Ok? ==> Some(r.value) == user
  {
    if user.None? then Err(401) else Ok(user.value)
  }

  /** `require_admin`: the login check first, then HTTP 403 for a non-admin. */
  function RequireAdmin(user: Option<User>): (r: Result<User>)
    ensures r.Ok? <==> user.Some? && IsAdmin(user.value)
    ensures r.Err? ==> r.code == (if user.None? then 401 else 403)
    ensures r.Ok? ==> Some(r.value) == user
  {
    var login := RequireLogin(user);
    if login.Err? then login
    else if login.value.role != ADMIN_ROLE then Err(403)
    else login
  }

  /** Archived and completed tasks are frozen. */
  predicate Frozen(t: Task) {
    t.archived || t.status == COMPLETED
  }

  /** `can_edit_task`. */
  function CanEditTask(users: seq<User>, user: Option<User>, task: Option<Task>): bool
    requires Acyclic(users)
  {
    if user.None? || task.None? then false
    else
      var u, t := user.value, task.value;
      if Frozen(t) then false
      else if IsAdmin(u) then true
      else if t.assignedToId == Some(u.id) then true
      else if Assignee(users, t).Some? && CanAssignTask(users, user, Assignee(users, t)) then true
      else false
  }

  /** Nobody edits without a user or a task; nobody, admins included, edits a
      frozen task; otherwise an admin, the assignee, and anyone the assignee
      reports to may edit. */
  lemma CanEditTaskSpec(users: seq<User>, user: Option<User>, task: Option<Task>)
    requires Acyclic(users)
    ensures user.None? || task.None? ==> !CanEditTask(users, user, task)
    ensures user.Some? && task.Some? ==>
      (CanEditTask(users, user, task) <==>
        && !Frozen(task.value)
        && (|| IsAdmin(user.value)
            || task.value.assignedToId == Some(user.value.id)
            || (Assignee(users, task.value).Some? &&
                ReportsTo(users, Assignee(users, task.value).value.id, user.value.id))))
  {
    if user.Some? && task.Some? {
      var a := Assignee(users, task.value);
      CanAssignTaskSpec(users, user, a);
    }
  }

  /** An unassigned task is editable only by an admin, and only while not frozen. */
  lemma UnassignedEditableOnlyByAdmin(users: seq<User>, u: User, t: Task)
    requires Acyclic(users)
    requires t.assignedToId.None?
    ensures CanEditTask(users, Some(u), Some(t)) <==> IsAdmin(u) && !Frozen(t)
  {
  }
}
