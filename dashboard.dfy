/** The dashboard (`app/services/dashboard_service.py`, `app/routes/dashboard.py`):
    visible, non-archived tasks and milestones grouped by deadline relative to
    today, and the KPI counts shown above them. Dates are day numbers, so
    "today + 7 days" is `today + 7`. */
module Dashboard {
  import opened Basics
  import opened Entities
  import opened Seqs
  import opened Hierarchy
  import opened Visibility

  /** The dictionary `build_dashboard` returns. */
  datatype Board = Board(
    todayTasks: seq<Task>,
    todayMilestones: seq<Milestone>,
    upcomingTasks: seq<Task>,
    upcomingMilestones: seq<Milestone>,
    overdueTasks: seq<Task>,
    overdueMilestones: seq<Milestone>,
    pendingReview: seq<Task>,
    completed: seq<Task>)

  /** `upcoming_limit`. */
  function UpcomingLimit(today: Date): int {
    today + 7
  }

  /** The base task query: non-archived tasks through the visibility filter. */
  function BaseTasks(users: seq<User>, tasks: seq<Task>, user: Option<User>): seq<Task>
    requires Acyclic(users)
  {
    VisibleTasks(users, Filter(tasks, (t: Task) => !t.archived), user)
  }

  /** A milestone row joined with its task row. */
  type Row = (Milestone, Task)

  /** `query(TaskMilestone).join(TaskMilestone.task)`: each milestone paired
      with its task; a milestone whose task row is missing drops out. */
  function Joined(ms: seq<Milestone>, tasks: seq<Task>): (r: seq<Row>)
    ensures forall x :: x in r ==> x.0 in ms && x.1 in tasks && x.1.id == x.0.taskId
  {
    if ms == [] then []
    else
      var i := TaskIndex(tasks, ms[0].taskId);
      (if i.Some? then [(ms[0], tasks[i.value])] else []) + Joined(ms[1..], tasks)
  }

  /** The joined rows hold exactly the milestones whose task exists, each with that task. */
  lemma {:induction false} JoinedSpec(ms: seq<Milestone>, tasks: seq<Task>, m: Milestone, t: Task)
    requires UniqueTaskIds(tasks)
    ensures (m, t) in Joined(ms, tasks) <==> m in ms && t in tasks && t.id == m.taskId
  {
    if ms != [] {
      JoinedSpec(ms[1..], tasks, m, t);
      if m == ms[0] && t in tasks && t.id == m.taskId {
        var i := TaskIndex(tasks, m.taskId);
        var k :| 0 <= k < |tasks| && tasks[k] == t;
        assert i.Some? && (tasks[i.value] == t) by {
          if i.value != k {
            if i.value < k {
              assert tasks[i.value].id != tasks[k].id;
            } else {
              assert tasks[k].id != tasks[i.value].id;
            }
          }
        }
      }
    }
  }

  /** A milestone is among the projected milestones iff some row carries it. */
  lemma MilestonesOfRowsSpec(rows: seq<Row>, m: Milestone)
    ensures m in MilestonesOfRows(rows) <==> exists t :: (m, t) in rows
  {
    var r := MilestonesOfRows(rows);
    if m in r {
      var i :| 0 <= i < |r| && r[i] == m;
      assert rows[i] in rows;
    }
    if exists t :: (m, t) in rows {
      var t :| (m, t) in rows;
      var i :| 0 <= i < |rows| && rows[i] == (m, t);
      assert r[i] == m;
    }
  }

  /** The milestones of a list of joined rows. */
  function MilestonesOfRows(rows: seq<Row>): (r: seq<Milestone>)
    ensures |r| == |rows|
    ensures forall i :: 0 <= i < |r| ==> r[i] == rows[i].0
  {
    if rows == [] then [] else [rows[0].0] + MilestonesOfRows(rows[1..])
  }

  /** The base milestone query: joined rows whose task is not archived,
      through the visibility filter applied to the task columns. */
  function BaseMilestoneRows(users: seq<User>, tasks: seq<Task>, ms: seq<Milestone>, user: Option<User>)
    : seq<Row>
    requires Acyclic(users)
  {
    ApplyTaskVisibility(users, Filter(Joined(ms, tasks), (x: Row) => !x.1.archived),
                        (x: Row) => x.1, user)
  }

  /** `build_dashboard(db, user)` on day `today`. */
  function BuildDashboard(users: seq<User>, tasks: seq<Task>, ms: seq<Milestone>, user: Option<User>, today: Date)
    : Board
    requires Acyclic(users)
  {
    var base := BaseTasks(users, tasks, user);
    var rows := BaseMilestoneRows(users, tasks, ms, user);
    var limit := UpcomingLimit(today);
    Board(
      Filter(base, (t: Task) => t.finalDeadline == today && t.status != COMPLETED),
      MilestonesOfRows(Filter(rows, (x: Row) => x.0.deadline == today)),
      Filter(base, (t: Task) => t.finalDeadline > today && t.finalDeadline <= limit && t.status != COMPLETED),
      MilestonesOfRows(Filter(rows, (x: Row) => x.0.deadline > today && x.0.deadline <= limit)),
      Filter(base, (t: Task) => t.finalDeadline < today && t.status != COMPLETED),
      MilestonesOfRows(Filter(rows, (x: Row) => x.0.deadline < today && x.0.status != COMPLETED)),
      Filter(base, (t: Task) => t.status == SUBMITTED),
      Filter(base, (t: Task) => t.status == COMPLETED))
  }

  /** Every task on the board is a stored, non-archived task the user may see. */
  ghost predicate OnBoard(users: seq<User>, tasks: seq<Task>, user: Option<User>, t: Task) {
    t in tasks && !t.archived && Visible(users, user, t)
  }

  lemma BaseTasksSpec(users: seq<User>, tasks: seq<Task>, user: Option<User>, t: Task)
    requires Acyclic(users)
    ensures t in BaseTasks(users, tasks, user) <==> OnBoard(users, tasks, user, t)
  {
    ApplyTaskVisibilitySpec(users, Filter(tasks, (x: Task) => !x.archived), (x: Task) => x, user, t);
  }

  /** The task groups: due today, due within the next seven days, overdue
      (none of them completed), in review, and completed. */
  lemma TaskBucketsSpec(users: seq<User>, tasks: seq<Task>, ms: seq<Milestone>, user: Option<User>, today: Date, t: Task)
    requires Acyclic(users)
    ensures var d := BuildDashboard(users, tasks, ms, user, today);
      && (t in d.todayTasks <==> OnBoard(users, tasks, user, t) && t.finalDeadline == today && t.status != COMPLETED)
      && (t in d.upcomingTasks <==>
            OnBoard(users, tasks, user, t) && today < t.finalDeadline <= today + 7 && t.status != COMPLETED)
      && (t in d.overdueTasks <==> OnBoard(users, tasks, user, t) && t.finalDeadline < today && t.status != COMPLETED)
      && (t in d.pendingReview <==> OnBoard(users, tasks, user, t) && t.status == SUBMITTED)
      && (t in d.completed <==> OnBoard(users, tasks, user, t) && t.status == COMPLETED)
  {
    BaseTasksSpec(users, tasks, user, t);
  }

  /** No task is in two of the today, upcoming and overdue groups, nor in
      both the in-review and the completed group. */
  lemma TaskBucketsDisjoint(users: seq<User>, tasks: seq<Task>, ms: seq<Milestone>, user: Option<User>, today: Date, t: Task)
    requires Acyclic(users)
    ensures var d := BuildDashboard(users, tasks, ms, user, today);
      && !(t in d.todayTasks && t in d.upcomingTasks)
      && !(t in d.todayTasks && t in d.overdueTasks)
      && !(t in d.upcomingTasks && t in d.overdueTasks)
      && !(t in d.pendingReview && t in d.completed)
  {
    TaskBucketsSpec(users, tasks, ms, user, today, t);
  }

  /** A milestone is on the board iff its task is a stored, non-archived task
      the user may see; only the overdue group leaves out completed milestones. */
  lemma MilestoneBucketsSpec(users: seq<User>, tasks: seq<Task>, ms: seq<Milestone>, user: Option<User>,
                             today: Date, m: Milestone)
    requires Acyclic(users) && UniqueTaskIds(tasks)
    ensures var d := BuildDashboard(users, tasks, ms, user, today);
      var shown := m in ms && exists t: Task :: t.id == m.taskId && OnBoard(users, tasks, user, t);
      && (m in d.todayMilestones <==> shown && m.deadline == today)
      && (m in d.upcomingMilestones <==> shown && today < m.deadline <= today + 7)
      && (m in d.overdueMilestones <==> shown && m.deadline < today && m.status != COMPLETED)
  {
    var limit := UpcomingLimit(today);
    MilestoneBucketSpec(users, tasks, ms, user, (x: Row) => x.0.deadline == today, m, m.deadline == today);
    MilestoneBucketSpec(users, tasks, ms, user, (x: Row) => x.0.deadline > today && x.0.deadline <= limit, m,
                        today < m.deadline <= today + 7);
    MilestoneBucketSpec(users, tasks, ms, user, (x: Row) => x.0.deadline < today && x.0.status != COMPLETED, m,
                        m.deadline < today && m.status != COMPLETED);
  }

  /** A milestone is in a group selected by a condition on the milestone iff
      the condition holds and the milestone's task is on the board. */
  lemma MilestoneBucketSpec(users: seq<User>, tasks: seq<Task>, ms: seq<Milestone>, user: Option<User>,
                            p: Row -> bool, m: Milestone, cond: bool)
    requires Acyclic(users) && UniqueTaskIds(tasks)
    requires forall t: Task :: p((m, t)) == cond
    ensures m in MilestonesOfRows(Filter(BaseMilestoneRows(users, tasks, ms, user), p)) <==>
      cond && m in ms && exists t: Task :: t.id == m.taskId && OnBoard(users, tasks, user, t)
  {
    var rows := BaseMilestoneRows(users, tasks, ms, user);
    MilestonesOfRowsSpec(Filter(rows, p), m);
    if m in MilestonesOfRows(Filter(rows, p)) {
      var t :| (m, t) in Filter(rows, p);
      BaseMilestoneRowsSpec(users, tasks, ms, user, m, t);
    }
    if cond && m in ms && exists t: Task :: t.id == m.taskId && OnBoard(users, tasks, user, t) {
      var t: Task :| t.id == m.taskId && OnBoard(users, tasks, user, t);
      BaseMilestoneRowsSpec(users, tasks, ms, user, m, t);
      assert (m, t) in Filter(rows, p);
    }
  }

  /** A joined row is in the base milestone query iff it pairs a stored
      milestone with its task and that task is on the board. */
  lemma BaseMilestoneRowsSpec(users: seq<User>, tasks: seq<Task>, ms: seq<Milestone>, user: Option<User>,
                              m: Milestone, t: Task)
    requires Acyclic(users) && UniqueTaskIds(tasks)
    ensures (m, t) in BaseMilestoneRows(users, tasks, ms, user) <==>
      m in ms && t.id == m.taskId && OnBoard(users, tasks, user, t)
  {
    var na := Filter(Joined(ms, tasks), (x: Row) => !x.1.archived);
    JoinedSpec(ms, tasks, m, t);
    ApplyTaskVisibilitySpec(users, na, (x: Row) => x.1, user, (m, t));
  }

  // ---------------------------------------------------------------------
  // KPIs

  /** The counts the dashboard page shows. */
  datatype Kpis = Kpis(total: nat, mine: nat, pendingReview: nat, overdue: nat, completed: nat, inProgress: nat)

  /** `my_tasks`: the user's non-archived tasks not in review, counted over the
      whole table with no visibility filter. */
  function MyTaskCount(tasks: seq<Task>, user: User): nat {
    |Filter(tasks, (t: Task) => !t.archived && t.assignedToId == Some(user.id) && t.status != SUBMITTED)|
  }

  /** The KPI block of the `dashboard` route: the total, in-review, overdue
      and completed figures are the sizes of the board's groups (whose members
      `TaskBucketsSpec` gives), `my_tasks` is counted over the whole table, and
      the in-progress figure is the rest, never below zero. */
  function DashboardKpis(users: seq<User>, tasks: seq<Task>, ms: seq<Milestone>, user: User, today: Date): (k: Kpis)
    requires Acyclic(users)
    ensures var d := BuildDashboard(users, tasks, ms, Some(user), today);
      && k.total == |d.todayTasks| + |d.upcomingTasks| + |d.overdueTasks|
      && k.pendingReview == |d.pendingReview|
      && k.overdue == |d.overdueTasks|
      && k.completed == |d.completed|
    ensures k.mine == MyTaskCount(tasks, user)
    ensures k.inProgress >= k.total - k.completed - k.pendingReview - k.overdue
    ensures k.inProgress == 0 || k.inProgress == k.total - k.completed - k.pendingReview - k.overdue
  {
    var d := BuildDashboard(users, tasks, ms, Some(user), today);
    var total := |d.todayTasks| + |d.upcomingTasks| + |d.overdueTasks|;
    var rest := total - |d.completed| - |d.pendingReview| - |d.overdueTasks|;
    Kpis(total, MyTaskCount(tasks, user), |d.pendingReview|, |d.overdueTasks|, |d.completed|,
         if rest > 0 then rest else 0)
  }

  /** `dashboard`: the login redirect without a user, the page with its KPIs otherwise. */
  function DashboardPage(users: seq<User>, tasks: seq<Task>, ms: seq<Milestone>, user: Option<User>, today: Date)
    : (r: (Response, Option<Kpis>))
    requires Acyclic(users)
    ensures user.None? <==> r.0 == Redirect(303, "/login")
    ensures r.1.Some? <==> user.Some?
    ensures user.Some? ==> r == (Rendered, Some(DashboardKpis(users, tasks, ms, user.value, today)))
  {
    if user.None? then (Redirect(303, "/login"), None)
    else (Rendered, Some(DashboardKpis(users, tasks, ms, user.value, today)))
  }

  /** The total counts each visible, non-archived, not completed task due by
      today + 7 exactly once, since the three groups are disjoint. */
  lemma TotalCountsOpenTasksDue(users: seq<User>, tasks: seq<Task>, ms: seq<Milestone>, user: User, today: Date)
    requires Acyclic(users)
    ensures DashboardKpis(users, tasks, ms, user, today).total
         == |Filter(BaseTasks(users, tasks, Some(user)), (t: Task) => t.finalDeadline <= today + 7 && t.status != COMPLETED)|
  {
    var base := BaseTasks(users, tasks, Some(user));
    var limit := UpcomingLimit(today);
    var pToday := (t: Task) => t.finalDeadline == today && t.status != COMPLETED;
    var pUp := (t: Task) => t.finalDeadline > today && t.finalDeadline <= limit && t.status != COMPLETED;
    var pOver := (t: Task) => t.finalDeadline < today && t.status != COMPLETED;
    var pNotLate := (t: Task) => pToday(t) || pUp(t);
    FilterCountDisjoint(base, pToday, pUp, pNotLate);
    FilterCountDisjoint(base, pNotLate, pOver, (t: Task) => t.finalDeadline <= today + 7 && t.status != COMPLETED);
  }

  /** `my_tasks` never exceeds the number of non-archived tasks the user sees:
      the user's own tasks outside review always pass the visibility filter. */
  lemma MyTasksAreVisible(users: seq<User>, tasks: seq<Task>, ms: seq<Milestone>, user: User, today: Date)
    requires Acyclic(users)
    ensures DashboardKpis(users, tasks, ms, user, today).mine <= |BaseTasks(users, tasks, Some(user))|
  {
    var na := Filter(tasks, (t: Task) => !t.archived);
    var own := (t: Task) => t.assignedToId == Some(user.id) && t.status != SUBMITTED;
    var vis := (t: Task) => Visible(users, Some(user), t);
    FilterFilter(tasks, (t: Task) => !t.archived, own,
                 (t: Task) => !t.archived && t.assignedToId == Some(user.id) && t.status != SUBMITTED);
    ApplyTaskVisibilityIsFilter(users, na, (t: Task) => t, Some(user), vis);
    FilterCountMonotone(na, own, vis);
  }
}
