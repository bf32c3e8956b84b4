/** The rows the application stores (`app/models`), as values. Calendar dates
    are day numbers (Python's `date.toordinal()`), timestamps are plain integers
    supplied by the caller. */
module Entities {
  import opened Basics

  /** A calendar date as its proleptic Gregorian day number (`date.toordinal()`);
      `date.min`, 0001-01-01, is day 1. */
  type Date = d: int | DATE_MIN <= d witness DATE_MIN
  const DATE_MIN: int := 1

  /** A point in time, as supplied by the caller's clock. */
  type Timestamp = int

  // Task statuses used by the workflow.
  const TO_DO := "To Do"
  const IN_PROGRESS := "In Progress"
  const SUBMITTED := "Submitted for Review"
  const APPROVED := "Approved"
  const RETURNED := "Returned"
  const COMPLETED := "Completed"

  // Milestone statuses (the column is free text; these two are the ones the code writes or tests).
  const PENDING := "Pending"

  const ADMIN_ROLE := "admin"

  datatype Privilege = Privilege(id: nat, code: string, description: string)

  datatype User = User(
    id: nat,
    username: string,
    passwordHash: string,
    role: string,
    fullName: Option<string>,
    department: Option<string>,
    isActive: bool,
    createdAt: Timestamp,
    managerId: Option<int>,
    privileges: seq<Privilege>)

  datatype Task = Task(
    id: nat,
    title: string,
    description: Option<string>,
    status: string,
    priority: string,
    typeId: int,
    assignedToId: Option<int>,
    startDate: Option<Date>,
    finalDeadline: Date,
    createdAt: Timestamp,
    completedAt: Option<Timestamp>,
    submittedAt: Option<Timestamp>,
    archived: bool,
    folderLink: Option<string>,
    completionRemarks: Option<string>,
    submissionRemarks: Option<string>)

  datatype Milestone = Milestone(
    id: nat,
    taskId: int,
    title: string,
    description: Option<string>,
    deadline: Date,
    status: string,
    sequence: int,
    createdAt: Timestamp)

  datatype QuickTask = QuickTask(
    id: nat,
    title: string,
    notes: Option<string>,
    completedOn: Date,
    createdById: int,
    createdAt: Timestamp)

  datatype AppSetting = AppSetting(id: nat, key: string, value: Option<string>)

  predicate IsAdmin(u: User) {
    u.role == ADMIN_ROLE
  }

  /** `db.get(User, id)`: the row with that primary key, if any. */
  function FindUser(users: seq<User>, id: int): (r: Option<User>)
    ensures r.Some? ==> r.value in users && r.value.id == id
    ensures r.None? ==> forall u :: u in users ==> u.id != id
  {
    if users == [] then None
    else if users[0].id == id then Some(users[0])
    else FindUser(users[1..], id)
  }

  /** With unique primary keys, `db.get` finds the one row that carries the key. */
  lemma {:induction false} FindUserUnique(users: seq<User>, u: User)
    requires UniqueUserIds(users) && u in users
    ensures FindUser(users, u.id) == Some(u)
  {
    if users[0] != u {
      var k :| 0 <= k < |users| && users[k] == u;
      assert k > 0;
      var t := users[1..];
      assert t[k - 1] == u;
      assert UniqueUserIds(t) by {
        forall i, j | 0 <= i < j < |t| ensures t[i].id != t[j].id {
          assert t[i] == users[i + 1] && t[j] == users[j + 1];
        }
      }
      FindUserUnique(t, u);
    }
  }

  /** The `manager_id` of the user row with primary key `id`, if that row exists and has one. */
  function ManagerOf(users: seq<User>, id: int): Option<int> {
    var u := FindUser(users, id);
    if u.None? then None else u.value.managerId
  }

  /** The user a task's `assigned_to` relationship loads: none when the task is
      unassigned or its `assigned_to_id` names no user. */
  function Assignee(users: seq<User>, t: Task): Option<User> {
    if t.assignedToId.None? then None else FindUser(users, t.assignedToId.value)
  }

  /** Primary keys are unique within a table. */
  ghost predicate UniqueUserIds(users: seq<User>) {
    forall i, j :: 0 <= i < j < |users| ==> users[i].id != users[j].id
  }

  ghost predicate UniqueTaskIds(tasks: seq<Task>) {
    forall i, j :: 0 <= i < j < |tasks| ==> tasks[i].id != tasks[j].id
  }

  ghost predicate UniqueMilestoneIds(ms: seq<Milestone>) {
    forall i, j :: 0 <= i < j < |ms| ==> ms[i].id != ms[j].id
  }

  /** The index of the task row with primary key `id`, if any (`db.get(Task, id)`). */
  function TaskIndex(tasks: seq<Task>, id: int): (r: Option<nat>)
    ensures r.Some? ==> r.value < |tasks| && tasks[r.value].id == id
    ensures r.None? ==> forall t :: t in tasks ==> t.id != id
  {
    if tasks == [] then None
    else if tasks[0].id == id then Some(0)
    else
      var r := TaskIndex(tasks[1..], id);
      if r.Some? then Some(r.value + 1) else None
  }

  /** Changing rows without changing their keys does not move `db.get`'s answer. */
  lemma {:induction false} TaskIndexSameKeys(tasks: seq<Task>, tasks': seq<Task>, id: int)
    requires |tasks| == |tasks'|
    requires forall k :: 0 <= k < |tasks| ==> tasks[k].id == tasks'[k].id
    ensures TaskIndex(tasks, id) == TaskIndex(tasks', id)
  {
    if tasks != [] && tasks[0].id != id {
      TaskIndexSameKeys(tasks[1..], tasks'[1..], id);
    }
  }

  /** The index of the user row `db.get(User, id)` loads, if any: the same row `FindUser` returns. */
  function UserIndex(users: seq<User>, id: int): (r: Option<nat>)
    ensures r.Some? ==> r.value < |users| && users[r.value].id == id && FindUser(users, id) == Some(users[r.value])
    ensures r.None? ==> FindUser(users, id).None?
    ensures r.Some? ==> forall k :: 0 <= k < r.value ==> users[k].id != id
  {
    if users == [] then None
    else if users[0].id == id then Some(0)
    else
      var r := UserIndex(users[1..], id);
      if r.Some? then Some(r.value + 1) else None
  }

  /** The index of the milestone row with primary key `id`, if any. */
  function MilestoneIndex(ms: seq<Milestone>, id: int): (r: Option<nat>)
    ensures r.Some? ==> r.value < |ms| && ms[r.value].id == id
    ensures r.None? ==> forall m :: m in ms ==> m.id != id
  {
    if ms == [] then None
    else if ms[0].id == id then Some(0)
    else
      var r := MilestoneIndex(ms[1..], id);
      if r.Some? then Some(r.value + 1) else None
  }
}
