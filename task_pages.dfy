/** The task pages (`app/routes/task_pages.py`): the filtered task list, the
    set of users a user may assign work to, task creation with its milestone
    seeding loop, editing, and the guard-then-transition workflow routes.
    Calendar-date parsing (`date.fromisoformat`) is the parameter `fromIso`. */
module TaskPages {
  import opened Basics
  import opened Entities
  import opened Seqs
  import opened Text
  import opened Store
  import opened Hierarchy
  import opened Visibility
  import opened Workflow
  import opened Permissions
  import opened TaskService

  /** `_parse_date`: nothing for a missing or empty string, otherwise the ISO
      date, or nothing when it does not parse. */
  function ParseDate(value: Option<string>, fromIso: string -> Option<Date>): (r: Option<Date>)
    ensures value.None? || value.value == "" ==> r.None?
    ensures r.Some? ==> value.Some? && fromIso(value.value) == r
    ensures Given(value) && fromIso(value.value).Some? ==> r == fromIso(value.value)
  {
    if !Given(value) then None else fromIso(value.value)
  }

  // ---------------------------------------------------------------------
  // Task list

  /** The query-string parameters of `task_list`. */
  datatype TaskQuery = TaskQuery(
    filter: Option<string>,
    status: Option<string>,
    priority: Option<string>,
    typeId: Option<int>,
    assignedToId: Option<int>,
    fromDate: Option<string>,
    toDate: Option<string>)

  /** The ORDER BY key of the list. */
  function Deadline(t: Task): int {
    t.finalDeadline
  }

  /** Everything `task_list` filters on besides the table itself. */
  datatype ListContext = ListContext(users: seq<User>, user: User, query: TaskQuery, today: Date,
                                     fromIso: string -> Option<Date>)

  /** Whether task `t` belongs in the list: not archived, visible to the
      user, inside the quick filter's window, and matching every given form filter. */
  ghost predicate Listed(c: ListContext, t: Task) {
    var query := c.query;
    var fromDt := ParseDate(query.fromDate, c.fromIso);
    var toDt := ParseDate(query.toDate, c.fromIso);
    && !t.archived
    && Visible(c.users, Some(c.user), t)
    && (query.filter == Some("today") ==> t.finalDeadline == c.today)
    && (query.filter == Some("upcoming") ==> t.finalDeadline > c.today)
    && (query.filter == Some("overdue") ==> t.finalDeadline < c.today && t.status != COMPLETED)
    && (Given(query.status) ==> t.status == query.status.value)
    && (Given(query.priority) ==> t.priority == query.priority.value)
    && (GivenInt(query.typeId) ==> t.typeId == query.typeId.value)
    && (GivenInt(query.assignedToId) ==> t.assignedToId == Some(query.assignedToId.value))
    && (fromDt.Some? ==> t.finalDeadline >= fromDt.value)
    && (toDt.Some? ==> t.finalDeadline <= toDt.value)
  }

  /** The list `task_list` renders: the listed tasks by ascending deadline. */
  ghost function ListedTasks(tasks: seq<Task>, c: ListContext): seq<Task> {
    SortBy(Filter(tasks, (t: Task) => Listed(c, t)), Deadline)
  }

  /** The list holds exactly the listed tasks, each as often as in the table,
      sorted by deadline. */
  lemma ListedTasksSpec(tasks: seq<Task>, c: ListContext)
    ensures var r := ListedTasks(tasks, c);
      && (forall t :: t in r <==> t in tasks && Listed(c, t))
      && SortedBy(r, Deadline)
      && multiset(r) <= multiset(tasks)
  {
    var p := (t: Task) => Listed(c, t);
    var f := Filter(tasks, p);
    FilterMultiset(tasks, p);
    assert forall t :: t in SortBy(f, Deadline) <==> t in multiset(f);
  }

  /** The `k`-th of the nine successive narrowings of the handler's query. */
  ghost predicate Step(c: ListContext, k: nat, t: Task) {
    var query := c.query;
    var fromDt := ParseDate(query.fromDate, c.fromIso);
    var toDt := ParseDate(query.toDate, c.fromIso);
    if k == 0 then !t.archived
    else if k == 1 then Visible(c.users, Some(c.user), t)
    else if k == 2 then
      && (query.filter == Some("today") ==> t.finalDeadline == c.today)
      && (query.filter == Some("upcoming") ==> t.finalDeadline > c.today)
      && (query.filter == Some("overdue") ==> t.finalDeadline < c.today && t.status != COMPLETED)
    else if k == 3 then Given(query.status) ==> t.status == query.status.value
    else if k == 4 then Given(query.priority) ==> t.priority == query.priority.value
    else if k == 5 then GivenInt(query.typeId) ==> t.typeId == query.typeId.value
    else if k == 6 then GivenInt(query.assignedToId) ==> t.assignedToId == Some(query.assignedToId.value)
    else if k == 7 then fromDt.Some? ==> t.finalDeadline >= fromDt.value
    else toDt.Some? ==> t.finalDeadline <= toDt.value
  }

  /** The first `k` narrowings together. */
  ghost predicate UpTo(c: ListContext, k: nat, t: Task) {
    k == 0 || (UpTo(c, k - 1, t) && Step(c, k - 1, t))
  }

  /** Narrowing `k` as a row predicate. */
  ghost function StepFilter(c: ListContext, k: nat): Task -> bool {
    (t: Task) => Step(c, k, t)
  }

  /** The first `k` narrowings as a row predicate. */
  ghost function UpToFilter(c: ListContext, k: nat): Task -> bool {
    (t: Task) => UpTo(c, k, t)
  }

  /** The handler's query after `k` narrowings. */
  ghost function Staged(tasks: seq<Task>, c: ListContext, k: nat): seq<Task> {
    if k == 0 then tasks else Filter(Staged(tasks, c, k - 1), StepFilter(c, k - 1))
  }

  /** Applying narrowing `k` as the filter `f`. */
  lemma StagedStep(tasks: seq<Task>, c: ListContext, k: nat, f: Task -> bool)
    requires forall t :: f(t) == Step(c, k, t)
    ensures Filter(Staged(tasks, c, k), f) == Staged(tasks, c, k + 1)
  {
    FilterCongruent(Staged(tasks, c, k), f, StepFilter(c, k));
  }

  /** Skipping narrowing `k` when every row passes it. */
  lemma StagedSkip(tasks: seq<Task>, c: ListContext, k: nat)
    requires forall t :: Step(c, k, t)
    ensures Staged(tasks, c, k) == Staged(tasks, c, k + 1)
  {
    FilterAll(Staged(tasks, c, k), StepFilter(c, k));
  }

  /** The first `k` narrowings are one filter by their conjunction. */
  lemma {:induction false} StagedUpTo(tasks: seq<Task>, c: ListContext, k: nat)
    ensures Staged(tasks, c, k) == Filter(tasks, UpToFilter(c, k))
  {
    if k == 0 {
      FilterAll(tasks, UpToFilter(c, 0));
    } else {
      StagedUpTo(tasks, c, k - 1);
      StagedUpToStep(tasks, c, k);
    }
  }

  /** Narrowing `k - 1` on top of the first `k - 1` is the first `k`. */
  lemma StagedUpToStep(tasks: seq<Task>, c: ListContext, k: nat)
    requires k > 0
    requires Staged(tasks, c, k - 1) == Filter(tasks, UpToFilter(c, k - 1))
    ensures Staged(tasks, c, k) == Filter(tasks, UpToFilter(c, k))
  {
    FilterFilter(tasks, UpToFilter(c, k - 1), StepFilter(c, k - 1), UpToFilter(c, k));
  }

  /** All nine narrowings are the list's filter. */
  lemma StagedListed(tasks: seq<Task>, c: ListContext)
    ensures Staged(tasks, c, 9) == Filter(tasks, (t: Task) => Listed(c, t))
  {
    forall t | t in tasks ensures UpTo(c, 9, t) == Listed(c, t) {
      assert UpTo(c, 9, t) == (UpTo(c, 8, t) && Step(c, 8, t));
      assert UpTo(c, 8, t) == (UpTo(c, 7, t) && Step(c, 7, t));
      assert UpTo(c, 7, t) == (UpTo(c, 6, t) && Step(c, 6, t));
      assert UpTo(c, 6, t) == (UpTo(c, 5, t) && Step(c, 5, t));
      assert UpTo(c, 5, t) == (UpTo(c, 4, t) && Step(c, 4, t));
      assert UpTo(c, 4, t) == (UpTo(c, 3, t) && Step(c, 3, t));
      assert UpTo(c, 3, t) == (UpTo(c, 2, t) && Step(c, 2, t));
      assert UpTo(c, 2, t) == (UpTo(c, 1, t) && Step(c, 1, t));
      assert UpTo(c, 1, t) == Step(c, 0, t);
    }
    StagedUpTo(tasks, c, 9);
    FilterCongruent(tasks, UpToFilter(c, 9), (t: Task) => Listed(c, t));
  }

  /** `q = q.filter(f)` where `f` is narrowing `k` of the handler's query. */
  method NarrowBy(ghost tasks: seq<Task>, ghost c: ListContext, ghost k: nat, q: seq<Task>, f: Task -> bool)
    returns (r: seq<Task>)
    requires q == Staged(tasks, c, k)
    requires forall t :: f(t) == Step(c, k, t)
    ensures r == Staged(tasks, c, k + 1)
  {
    StagedStep(tasks, c, k, f);
    r := Filter(q, f);
  }

  /** The handler's form filters on status, priority, type and assignee:
      each given one narrows the query. */
  method FilterByFields(ghost tasks: seq<Task>, ghost c: ListContext, q: seq<Task>, query: TaskQuery)
    returns (r: seq<Task>)
    requires q == Staged(tasks, c, 3) && query == c.query
    ensures r == Staged(tasks, c, 7)
  {
    r := q;
    if Given(query.status) {
      r := NarrowBy(tasks, c, 3, r, (t: Task) => t.status == query.status.value);
    } else {
      StagedSkip(tasks, c, 3);
    }
    if Given(query.priority) {
      r := NarrowBy(tasks, c, 4, r, (t: Task) => t.priority == query.priority.value);
    } else {
      StagedSkip(tasks, c, 4);
    }
    if GivenInt(query.typeId) {
      r := NarrowBy(tasks, c, 5, r, (t: Task) => t.typeId == query.typeId.value);
    } else {
      StagedSkip(tasks, c, 5);
    }
    if GivenInt(query.assignedToId) {
      r := NarrowBy(tasks, c, 6, r, (t: Task) => t.assignedToId == Some(query.assignedToId.value));
    } else {
      StagedSkip(tasks, c, 6);
    }
  }

  /** The handler's deadline range: each parsed bound narrows the query. */
  method FilterByDeadlineRange(ghost tasks: seq<Task>, ghost c: ListContext, q: seq<Task>,
                               fromDt: Option<Date>, toDt: Option<Date>)
    returns (r: seq<Task>)
    requires q == Staged(tasks, c, 7)
    requires fromDt == ParseDate(c.query.fromDate, c.fromIso) && toDt == ParseDate(c.query.toDate, c.fromIso)
    ensures r == Staged(tasks, c, 9)
  {
    r := q;
    if fromDt.Some? {
      r := NarrowBy(tasks, c, 7, r, (t: Task) => t.finalDeadline >= fromDt.value);
    } else {
      StagedSkip(tasks, c, 7);
    }
    if toDt.Some? {
      r := NarrowBy(tasks, c, 8, r, (t: Task) => t.finalDeadline <= toDt.value);
    } else {
      StagedSkip(tasks, c, 8);
    }
  }

  /** `task_list`: the query is narrowed filter by filter, as the handler
      reassigns `q`, and ends as the listed tasks by deadline. */
  method TaskList(db: Database, user: Option<User>, query: TaskQuery, today: Date, fromIso: string -> Option<Date>)
    returns (resp: Response, tasks: seq<Task>)
    requires Acyclic(db.users)
    ensures user.None? ==> resp == Redirect(303, "/login") && tasks == []
    ensures user.Some? ==>
      resp == Rendered && tasks == ListedTasks(db.tasks, ListContext(db.users, user.value, query, today, fromIso))
  {
    if user.None? {
      return Redirect(303, "/login"), [];
    }
    ghost var c := ListContext(db.users, user.value, query, today, fromIso);
    var fromDt := ParseDate(query.fromDate, fromIso);
    var toDt := ParseDate(query.toDate, fromIso);

    var q := Filter(db.tasks, (t: Task) => !t.archived);
    StagedStep(db.tasks, c, 0, (t: Task) => !t.archived);

    var users := db.users;
    ApplyTaskVisibilityIsFilter(users, q, (t: Task) => t, user, (t: Task) => Step(c, 1, t));
    StagedStep(db.tasks, c, 1, (t: Task) => Step(c, 1, t));
    q := VisibleTasks(users, q, user);

    if query.filter == Some("today") {
      q := NarrowBy(db.tasks, c, 2, q, (t: Task) => t.finalDeadline == today);
    } else if query.filter == Some("upcoming") {
      q := NarrowBy(db.tasks, c, 2, q, (t: Task) => t.finalDeadline > today);
    } else if query.filter == Some("overdue") {
      q := NarrowBy(db.tasks, c, 2, q, (t: Task) => t.finalDeadline < today && t.status != COMPLETED);
    } else {
      StagedSkip(db.tasks, c, 2);
    }

    q := FilterByFields(db.tasks, c, q, query);
    q := FilterByDeadlineRange(db.tasks, c, q, fromDt, toDt);

    StagedListed(db.tasks, c);
    tasks := SortBy(q, Deadline);
    resp := Rendered;
  }

  // ---------------------------------------------------------------------
  // Assignable users

  /** The `assignable_users` of the create and edit forms. */
  function AssignableUsers(users: seq<User>, user: User): seq<User>
    requires Acyclic(users)
  {
    if IsAdmin(user) then Filter(users, (u: User) => u.isActive)
    else
      var subIds := SubordinateIds(users, Some(user));
      if subIds != [] then
        Filter(Filter(users, (u: User) => u.id in subIds + [user.id]), (u: User) => u.isActive)
      else Filter(users, (u: User) => u.id == user.id && u.isActive)
  }

  /** The forms offer exactly the active users the user may assign work to:
      all of them for an admin, otherwise the user and everyone below them. */
  lemma AssignableUsersSpec(users: seq<User>, user: User, u: User)
    requires Acyclic(users)
    ensures u in AssignableUsers(users, user) <==>
      u in users && u.isActive && (IsAdmin(user) || u.id == user.id || ReportsTo(users, u.id, user.id))
    ensures u in AssignableUsers(users, user) <==>
      u in users && u.isActive && CanAssignTask(users, Some(user), Some(u))
  {
    SubordinateIdsReachable(users, Some(user), u.id);
    CanAssignTaskSpec(users, Some(user), Some(u));
  }

  // ---------------------------------------------------------------------
  // Create task

  /** Whether pair `k` of the milestone form lists is seeded: a non-empty
      title and a deadline that parses. */
  predicate SeedsMilestone(titles: seq<string>, deadlines: seq<string>, k: nat, fromIso: string -> Option<Date>)
    requires k < |titles| && k < |deadlines|
  {
    titles[k] != "" && ParseDate(Some(deadlines[k]), fromIso).Some?
  }

  /** The milestone rows the seeding loop adds for the first `n` pairs of the
      form lists, to a table that held `ms0`: pair `k` becomes sequence `k + 1`. */
  function Seeded(taskId: int, titles: seq<string>, deadlines: seq<string>, n: nat,
                  fromIso: string -> Option<Date>, ms0: seq<Milestone>, now: Timestamp): seq<Milestone>
    requires n <= |titles| && n <= |deadlines|
  {
    if n == 0 then []
    else
      var prev := Seeded(taskId, titles, deadlines, n - 1, fromIso, ms0, now);
      if SeedsMilestone(titles, deadlines, n - 1, fromIso) then
        var id := NextId(ms0 + prev, (x: Milestone) => x.id);
        prev + [Milestone(id, taskId, titles[n - 1], None, fromIso(deadlines[n - 1]).value, PENDING, n, now)]
      else prev
  }

  /** Every seeded row belongs to the task, is Pending, and carries the
      title and parsed deadline of the pair its sequence number points at;
      sequence numbers rise strictly, so gaps mark skipped pairs. */
  lemma {:induction false} SeededSound(taskId: int, titles: seq<string>, deadlines: seq<string>, n: nat,
                                      fromIso: string -> Option<Date>, ms0: seq<Milestone>, now: Timestamp)
    requires n <= |titles| && n <= |deadlines|
    ensures var r := Seeded(taskId, titles, deadlines, n, fromIso, ms0, now);
      && |r| <= n
      && (forall i :: 0 <= i < |r| ==>
            && 1 <= r[i].sequence <= n
            && r[i].taskId == taskId && r[i].status == PENDING
            && SeedsMilestone(titles, deadlines, r[i].sequence - 1, fromIso)
            && r[i].title == titles[r[i].sequence - 1]
            && Some(r[i].deadline) == fromIso(deadlines[r[i].sequence - 1]))
      && (forall i, j :: 0 <= i < j < |r| ==> r[i].sequence < r[j].sequence)
  {
    if n > 0 {
      SeededSound(taskId, titles, deadlines, n - 1, fromIso, ms0, now);
    }
  }

  /** Every pair that passes the check is seeded, with its 1-based position as sequence number. */
  lemma {:induction false} SeededComplete(taskId: int, titles: seq<string>, deadlines: seq<string>, n: nat,
                                         fromIso: string -> Option<Date>, ms0: seq<Milestone>, now: Timestamp, k: nat)
    requires n <= |titles| && n <= |deadlines| && k < n
    requires SeedsMilestone(titles, deadlines, k, fromIso)
    ensures exists i :: (0 <= i < |Seeded(taskId, titles, deadlines, n, fromIso, ms0, now)|
                         && Seeded(taskId, titles, deadlines, n, fromIso, ms0, now)[i].sequence == k + 1)
  {
    var r := Seeded(taskId, titles, deadlines, n, fromIso, ms0, now);
    if k == n - 1 {
      assert r[|r| - 1].sequence == k + 1;
    } else {
      SeededComplete(taskId, titles, deadlines, n - 1, fromIso, ms0, now, k);
      var prev := Seeded(taskId, titles, deadlines, n - 1, fromIso, ms0, now);
      var i :| 0 <= i < |prev| && prev[i].sequence == k + 1;
      assert r[i] == prev[i];
    }
  }

  /** Seeded rows get primary keys no existing row has and that differ from each other. */
  lemma {:induction false} SeededFreshIds(taskId: int, titles: seq<string>, deadlines: seq<string>, n: nat,
                                         fromIso: string -> Option<Date>, ms0: seq<Milestone>, now: Timestamp)
    requires n <= |titles| && n <= |deadlines| && UniqueMilestoneIds(ms0)
    ensures UniqueMilestoneIds(ms0 + Seeded(taskId, titles, deadlines, n, fromIso, ms0, now))
  {
    if n > 0 {
      SeededFreshIds(taskId, titles, deadlines, n - 1, fromIso, ms0, now);
      var prev := Seeded(taskId, titles, deadlines, n - 1, fromIso, ms0, now);
      if SeedsMilestone(titles, deadlines, n - 1, fromIso) {
        var all := ms0 + prev;
        var m := Milestone(NextId(all, (x: Milestone) => x.id), taskId, titles[n - 1], None,
                           fromIso(deadlines[n - 1]).value, PENDING, n, now);
        assert ms0 + Seeded(taskId, titles, deadlines, n, fromIso, ms0, now) == all + [m];
        forall i, j | 0 <= i < j < |all + [m]| ensures (all + [m])[i].id != (all + [m])[j].id {
          if j == |all| {
            assert (all + [m])[i] == all[i];
          } else {
            assert (all + [m])[i] == all[i] && (all + [m])[j] == all[j];
          }
        }
      }
    }
  }

  /** `int(assigned_to_id) if assigned_to_id else None` on the raw form
      field: nothing for a missing or empty field, otherwise the number, or the
      `ValueError` of `int` (HTTP 500) when the text is not one. `toInt` is
      Python's `int` on strings. */
  function IntField(raw: Option<string>, toInt: string -> Option<int>): (r: Result<Option<int>>)
    ensures r == Ok(None) <==> !Given(raw)
    ensures r.Err? <==> Given(raw) && toInt(raw.value).None?
    ensures r.Err? ==> r.code == 500
    ensures r.Ok? && r.value.Some? ==> Given(raw) && r.value == toInt(raw.value)
  {
    if !Given(raw) then Ok(None)
    else
      var n := toInt(raw.value);
      if n.None? then Err(500) else Ok(n)
  }

  /** Whether `create_task_submit` refuses the assignee: an id was given (and
      is not 0) but names no user, or one the submitting user may not assign to. */
  function AssigneeRefused(users: seq<User>, user: User, assignedToId: Option<int>): bool
    requires Acyclic(users)
  {
    if !GivenInt(assignedToId) then false
    else
      var assignee := FindUser(users, assignedToId.value);
      assignee.None? || !CanAssignTask(users, Some(user), assignee)
  }

  /** A refusal happens exactly when an assignee id was given that is not the
      id of a user the submitter is allowed to assign work to. */
  lemma AssigneeRefusedSpec(users: seq<User>, user: User, assignedToId: Option<int>)
    requires Acyclic(users) && UniqueUserIds(users)
    ensures AssigneeRefused(users, user, assignedToId) <==>
      GivenInt(assignedToId) &&
      !(exists a :: a in users && a.id == assignedToId.value && CanAssignTask(users, Some(user), Some(a)))
  {
    if GivenInt(assignedToId) {
      var found := FindUser(users, assignedToId.value);
      if found.Some? {
        forall a | a in users && a.id == assignedToId.value
          ensures a == found.value
        {
          FindUserUnique(users, a);
        }
      }
    }
  }

  /** `create_task_submit`. `assignedTo` is the raw form field, which
      `IntField` converts. */
  method CreateTaskSubmit(db: Database, user: Option<User>, title: string, typeId: int, priority: string,
                          finalDeadline: Date, folderLink: Option<string>, assignedTo: Option<string>,
                          description: Option<string>, titles: seq<string>, deadlines: seq<string>,
                          toInt: string -> Option<int>, fromIso: string -> Option<Date>, now: Timestamp)
    returns (resp: Response)
    requires Acyclic(db.users)
    modifies db`tasks, db`milestones
    ensures user.None? ==> resp == Redirect(303, "/login")
    ensures user.Some? && IntField(assignedTo, toInt).Err? ==> resp == ServerError
    ensures var a := IntField(assignedTo, toInt);
      user.Some? && a.Ok? && AssigneeRefused(db.users, user.value, a.value) ==> resp == Redirect(403, "/dashboard")
    ensures var a := IntField(assignedTo, toInt);
      user.None? || a.Err? || AssigneeRefused(db.users, user.value, a.value) ==>
      db.tasks == old(db.tasks) && db.milestones == old(db.milestones)
    ensures var a := IntField(assignedTo, toInt);
      user.Some? && a.Ok? && !AssigneeRefused(db.users, user.value, a.value) ==>
      var t := NewTask(NextId(old(db.tasks), (x: Task) => x.id), title, typeId, finalDeadline, priority,
                       a.value, folderLink, description, None, now);
      var n := if |titles| < |deadlines| then |titles| else |deadlines|;
      && resp == Redirect(303, "/ui/tasks")
      && db.tasks == old(db.tasks) + [t]
      && db.milestones == old(db.milestones) + Seeded(t.id, titles, deadlines, n, fromIso, old(db.milestones), now)
  {
    if user.None? {
      return Redirect(303, "/login");
    }
    var parsed := IntField(assignedTo, toInt);
    if parsed.Err? {
      return ServerError;
    }
    var assignedToId := parsed.value;
    if GivenInt(assignedToId) {
      var assignee := FindUser(db.users, assignedToId.value);
      if assignee.None? || !CanAssignTask(db.users, user, assignee) {
        return Redirect(403, "/dashboard");
      }
    }
    var task := CreateTask(db, title, typeId, finalDeadline, priority, assignedToId, folderLink, description, None, now);
    var n := if |titles| < |deadlines| then |titles| else |deadlines|;
    ghost var ms0 := db.milestones;
    for idx := 1 to n + 1
      invariant db.tasks == old(db.tasks) + [task]
      invariant db.milestones == ms0 + Seeded(task.id, titles, deadlines, idx - 1, fromIso, ms0, now)
    {
      var deadline := ParseDate(Some(deadlines[idx - 1]), fromIso);
      if titles[idx - 1] != "" && deadline.Some? {
        var id := NextId(db.milestones, (x: Milestone) => x.id);
        db.milestones := db.milestones + [Milestone(id, task.id, titles[idx - 1], None, deadline.value, PENDING, idx, now)];
      }
    }
    resp := Redirect(303, "/ui/tasks");
  }

  // ---------------------------------------------------------------------
  // Workflow routes

  /** The redirect to a task's detail page. */
  function TaskPage(id: nat): (r: Response)
    ensures r.Redirect? && r.code == 303 && r.location == "/ui/tasks/" + NatToString(id)
  {
    Redirect(303, "/ui/tasks/" + NatToString(id))
  }

  /** Distinct tasks have distinct detail pages. */
  lemma TaskPageInjective(a: nat, b: nat)
    requires TaskPage(a) == TaskPage(b)
    ensures a == b
  {
    var sa, sb := NatToString(a), NatToString(b);
    assert "/ui/tasks/" + sa == "/ui/tasks/" + sb;
    assert sa == ("/ui/tasks/" + sa)[10..];
    assert sb == ("/ui/tasks/" + sb)[10..];
  }

  /** `submit_task_for_review`: a missing task or a refused guard answers 403;
      with no user the guard itself fails (HTTP 500); otherwise the task is submitted. */
  method SubmitRoute(db: Database, user: Option<User>, taskId: int, remarks: Option<string>, now: Timestamp)
    returns (resp: Response)
    modifies db`tasks
    ensures var i := TaskIndex(old(db.tasks), taskId);
      if i.None? then resp == Redirect(403, "/dashboard") && db.tasks == old(db.tasks)
      else if user.None? then resp == ServerError && db.tasks == old(db.tasks)
      else if !CanSubmitForReview(user.value, old(db.tasks)[i.value]) then
        resp == Redirect(403, "/dashboard") && db.tasks == old(db.tasks)
      else
        resp == TaskPage(old(db.tasks)[i.value].id)
        && db.tasks == old(db.tasks)[i.value := Submitted(old(db.tasks)[i.value], remarks, now)]
  {
    var i := TaskIndex(db.tasks, taskId);
    if i.None? {
      return Redirect(403, "/dashboard");
    }
    if user.None? {
      return ServerError;
    }
    if !CanSubmitForReview(user.value, db.tasks[i.value]) {
      return Redirect(403, "/dashboard");
    }
    SubmitForReview(db, i.value, remarks, now);
    resp := TaskPage(db.tasks[i.value].id);
  }

  /** `approve_task_submit`: 403 for a missing task or a refused review guard
      (including no user); otherwise the task is approved. */
  method ApproveRoute(db: Database, user: Option<User>, taskId: int) returns (resp: Response)
    requires Acyclic(db.users)
    modifies db`tasks
    ensures var i := TaskIndex(old(db.tasks), taskId);
      if i.None? || !CanReviewTask(db.users, user, old(db.tasks)[i.value]) then
        resp == Redirect(403, "/dashboard") && db.tasks == old(db.tasks)
      else
        resp == TaskPage(old(db.tasks)[i.value].id)
        && db.tasks == old(db.tasks)[i.value := Approved(old(db.tasks)[i.value])]
  {
    var i := TaskIndex(db.tasks, taskId);
    if i.None? || !CanReviewTask(db.users, user, db.tasks[i.value]) {
      return Redirect(403, "/dashboard");
    }
    ApproveTask(db, i.value);
    resp := TaskPage(db.tasks[i.value].id);
  }

  /** `return_task_submit`: as approval, moving the task to Returned. */
  method ReturnRoute(db: Database, user: Option<User>, taskId: int) returns (resp: Response)
    requires Acyclic(db.users)
    modifies db`tasks
    ensures var i := TaskIndex(old(db.tasks), taskId);
      if i.None? || !CanReviewTask(db.users, user, old(db.tasks)[i.value]) then
        resp == Redirect(403, "/dashboard") && db.tasks == old(db.tasks)
      else
        resp == TaskPage(old(db.tasks)[i.value].id)
        && db.tasks == old(db.tasks)[i.value := Returned(old(db.tasks)[i.value])]
  {
    var i := TaskIndex(db.tasks, taskId);
    if i.None? || !CanReviewTask(db.users, user, db.tasks[i.value]) {
      return Redirect(403, "/dashboard");
    }
    ReturnTask(db, i.value);
    resp := TaskPage(db.tasks[i.value].id);
  }

  /** `complete_task_submit`: a missing task answers 403; with no user the
      guard fails (HTTP 500); a refused guard answers 403; otherwise the task is completed. */
  method CompleteRoute(db: Database, user: Option<User>, taskId: int, remarks: Option<string>, now: Timestamp)
    returns (resp: Response)
    modifies db`tasks
    ensures var i := TaskIndex(old(db.tasks), taskId);
      if i.None? then resp == Redirect(403, "/dashboard") && db.tasks == old(db.tasks)
      else if user.None? then resp == ServerError && db.tasks == old(db.tasks)
      else if !CanCompleteTask(user.value, old(db.tasks)[i.value]) then
        resp == Redirect(403, "/dashboard") && db.tasks == old(db.tasks)
      else
        resp == TaskPage(old(db.tasks)[i.value].id)
        && db.tasks == old(db.tasks)[i.value := Completed(old(db.tasks)[i.value], remarks, now)]
  {
    var i := TaskIndex(db.tasks, taskId);
    if i.None? {
      return Redirect(403, "/dashboard");
    }
    if user.None? {
      return ServerError;
    }
    if !CanCompleteTask(user.value, db.tasks[i.value]) {
      return Redirect(403, "/dashboard");
    }
    CompleteTask(db, i.value, remarks, now);
    resp := TaskPage(db.tasks[i.value].id);
  }

  /** `edit_task_submit`: 403 unless the task exists and the user may edit
      it; then a malformed assignee field raises (HTTP 500); otherwise the
      seven editable fields are overwritten. */
  method EditTaskSubmit(db: Database, user: Option<User>, taskId: int, title: string, typeId: int, priority: string,
                        finalDeadline: Date, folderLink: Option<string>, assignedTo: Option<string>,
                        description: Option<string>, toInt: string -> Option<int>)
    returns (resp: Response)
    requires Acyclic(db.users)
    modifies db`tasks
    ensures var i := TaskIndex(old(db.tasks), taskId);
      var a := IntField(assignedTo, toInt);
      if i.None? || !CanEditTask(db.users, user, Some(old(db.tasks)[i.value])) then
        resp == Redirect(403, "/dashboard") && db.tasks == old(db.tasks)
      else if a.Err? then
        resp == ServerError && db.tasks == old(db.tasks)
      else
        resp == TaskPage(old(db.tasks)[i.value].id)
        && db.tasks == old(db.tasks)[i.value := old(db.tasks)[i.value].(
             title := title, typeId := typeId, priority := priority, finalDeadline := finalDeadline,
             assignedToId := a.value, folderLink := folderLink, description := description)]
  {
    var i := TaskIndex(db.tasks, taskId);
    if i.None? || !CanEditTask(db.users, user, Some(db.tasks[i.value])) {
      return Redirect(403, "/dashboard");
    }
    var parsed := IntField(assignedTo, toInt);
    if parsed.Err? {
      return ServerError;
    }
    UpdateTask(db, i.value, title, typeId, priority, finalDeadline, parsed.value, folderLink, description);
    resp := TaskPage(db.tasks[i.value].id);
  }
}
