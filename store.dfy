/** The database session: one object holding every table the core reads or
    writes, each as the sequence of its rows in insertion order. Operations
    that change rows in place reassign the table field; `db.commit()` is a
    no-op here. */
module Store {
  import opened Entities

  class Database {
    var users: seq<User>
    var tasks: seq<Task>
    var milestones: seq<Milestone>
    var quickTasks: seq<QuickTask>
    var privileges: seq<Privilege>
    var settings: seq<AppSetting>

    constructor(users: seq<User>, tasks: seq<Task>, milestones: seq<Milestone>,
                quickTasks: seq<QuickTask>, privileges: seq<Privilege>, settings: seq<AppSetting>)
      ensures this.users == users && this.tasks == tasks && this.milestones == milestones
      ensures this.quickTasks == quickTasks && this.privileges == privileges && this.settings == settings
    {
      this.users := users;
      this.tasks := tasks;
      this.milestones := milestones;
      this.quickTasks := quickTasks;
      this.privileges := privileges;
      this.settings := settings;
    }
  }

  /** The primary key the database gives a new row: one more than the largest in use. */
  function NextId<T>(rows: seq<T>, id: T -> nat): (r: nat)
    ensures r >= 1
    ensures forall i :: 0 <= i < |rows| ==> id(rows[i]) < r
  {
    if rows == [] then 1
    else
      var rest := NextId(rows[..|rows| - 1], id);
      var last := id(rows[|rows| - 1]);
      if last < rest then rest else last + 1
  }
}
