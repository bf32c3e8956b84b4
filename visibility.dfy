/** Task visibility (`app/utils/task_visibility.py`): the filter every task
    list and dashboard query goes through. The query's rows may be tasks or
    rows joined with their task (the dashboard's milestone query); `taskOf`
    gives the task columns the filter reads. */
module Visibility {
  import opened Basics
  import opened Entities
  import opened Seqs
  import opened Hierarchy

  /** `own_clause`: assigned to the user and not in review. */
  predicate OwnClause(user: User, t: Task) {
    t.assignedToId == Some(user.id) && t.status != SUBMITTED
  }

  /** `review_clause`: assigned to one of `subIds` and in review. */
  predicate ReviewClause(subIds: seq<int>, t: Task) {
    t.assignedToId.Some? && t.assignedToId.value in subIds && t.status == SUBMITTED
  }

  /** `apply_task_visibility(query, user)` over the rows `rows` of the query. */
  function ApplyTaskVisibility<R(!new)>(users: seq<User>, rows: seq<R>, taskOf: R -> Task, user: Option<User>): seq<R>
    requires Acyclic(users)
  {
    if user.None? || IsAdmin(user.value) then rows
    else
      var subIds := SubordinateIds(users, user);
      if subIds != [] then
        Filter(rows, (x: R) => OwnClause(user.value, taskOf(x)) || ReviewClause(subIds, taskOf(x)))
      else Filter(rows, (x: R) => OwnClause(user.value, taskOf(x)))
  }

  /** The filter on a plain task query. */
  function VisibleTasks(users: seq<User>, tasks: seq<Task>, user: Option<User>): seq<Task>
    requires Acyclic(users)
  {
    ApplyTaskVisibility(users, tasks, (t: Task) => t, user)
  }

  /** Whether one task row passes the visibility filter, stated with the
      subordinate relation itself rather than the collected id list. */
  ghost predicate Visible(users: seq<User>, user: Option<User>, t: Task) {
    || user.None?
    || IsAdmin(user.value)
    || (t.assignedToId == Some(user.value.id) && t.status != SUBMITTED)
    || (t.assignedToId.Some? && ReportsTo(users, t.assignedToId.value, user.value.id) && t.status == SUBMITTED)
  }

  /** The filter keeps exactly the rows whose task is `Visible`, in their
      original order: it is one `Filter` by that predicate. */
  lemma ApplyTaskVisibilityIsFilter<R(!new)>(users: seq<User>, rows: seq<R>, taskOf: R -> Task, user: Option<User>,
                                             vis: R -> bool)
    requires Acyclic(users)
    requires forall x :: vis(x) == Visible(users, user, taskOf(x))
    ensures ApplyTaskVisibility(users, rows, taskOf, user) == Filter(rows, vis)
  {
    if user.None? || IsAdmin(user.value) {
      FilterAll(rows, vis);
    } else {
      var subIds := SubordinateIds(users, user);
      forall x: int {
        SubordinateIdsReachable(users, user, x);
      }
      if subIds != [] {
        FilterCongruent(rows, (x: R) => OwnClause(user.value, taskOf(x)) || ReviewClause(subIds, taskOf(x)), vis);
      } else {
        FilterCongruent(rows, (x: R) => OwnClause(user.value, taskOf(x)), vis);
      }
    }
  }

  /** No user or an admin: the query is returned unchanged. A non-admin keeps a
      row iff its task is theirs and not in review, or is in review and
      assigned to someone below them. */
  lemma ApplyTaskVisibilitySpec<R(!new)>(users: seq<User>, rows: seq<R>, taskOf: R -> Task, user: Option<User>, x: R)
    requires Acyclic(users)
    ensures user.None? || IsAdmin(user.value) ==> ApplyTaskVisibility(users, rows, taskOf, user) == rows
    ensures x in ApplyTaskVisibility(users, rows, taskOf, user) <==> x in rows && Visible(users, user, taskOf(x))
  {
    ApplyTaskVisibilityIsFilter(users, rows, taskOf, user, (y: R) => Visible(users, user, taskOf(y)));
  }

  /** A non-admin with nobody below them sees only the own-task clause. */
  lemma NoSubordinatesOwnOnly(users: seq<User>, tasks: seq<Task>, user: User)
    requires Acyclic(users) && !IsAdmin(user)
    requires Subordinates(users, user.id) == []
    ensures VisibleTasks(users, tasks, Some(user)) == Filter(tasks, (t: Task) => OwnClause(user, t))
  {
    assert SubordinateIds(users, Some(user)) == CollectAll(users, user.id, []);
    forall x: int {
      SubordinateIdsReachable(users, Some(user), x);
    }
    var taskOf := (t: Task) => t;
    assert VisibleTasks(users, tasks, Some(user)) == ApplyTaskVisibility(users, tasks, taskOf, Some(user));
    ApplyTaskVisibilityIsFilter(users, tasks, taskOf, Some(user), (t: Task) => OwnClause(user, t));
  }

  /** The visible rows are a subset of the input, in the input's order: the
      filter commutes with splitting the table. */
  lemma ApplyTaskVisibilityConcat<R(!new)>(users: seq<User>, a: seq<R>, b: seq<R>, taskOf: R -> Task, user: Option<User>)
    requires Acyclic(users)
    ensures ApplyTaskVisibility(users, a + b, taskOf, user)
      == ApplyTaskVisibility(users, a, taskOf, user) + ApplyTaskVisibility(users, b, taskOf, user)
    ensures multiset(ApplyTaskVisibility(users, a, taskOf, user)) <= multiset(a)
  {
    var vis := (x: R) => Visible(users, user, taskOf(x));
    ApplyTaskVisibilityIsFilter(users, a + b, taskOf, user, vis);
    ApplyTaskVisibilityIsFilter(users, a, taskOf, user, vis);
    ApplyTaskVisibilityIsFilter(users, b, taskOf, user, vis);
    FilterConcat(a, b, vis);
    FilterMultiset(a, vis);
  }

  /** A non-admin never sees an unassigned task, and never sees their own task
      while it is in review (the manager graph being acyclic). */
  lemma NonAdminHiddenTasks(users: seq<User>, user: User, t: Task)
    requires Acyclic(users) && !IsAdmin(user)
    requires t.assignedToId.None? || (t.assignedToId == Some(user.id) && t.status == SUBMITTED)
    ensures !Visible(users, Some(user), t)
  {
    if t.assignedToId.Some? {
      RootNotCollected(users, user);
      SubordinateIdsReachable(users, Some(user), user.id);
    }
  }
}
