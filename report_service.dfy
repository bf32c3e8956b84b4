/** Report generation (`app/services/report_service.py`): which tasks and
    quick tasks a report holds, and the table of cells the Excel and PDF
    generators lay out, one header row then one row per task, milestone and
    quick task. Fonts, widths, the logo and the file bytes are not modelled. */
module ReportService {
  import opened Basics
  import opened Entities
  import opened Seqs
  import opened Text
  import opened MilestoneService

  datatype Format = Excel | Pdf

  /** One table cell: text, a number, or a date (the PDF prints it as YYYY-MM-DD). */
  datatype Cell = Str(text: string) | Number(n: int) | Day(day: Date)

  /** The report columns a caller may choose. */
  datatype Column =
    | Id | Title | Status | Priority | AssignedTo | Deadline | Folder
    | MilestoneTitle | MilestoneStatus | MilestoneDeadline
  {
    /** Whether the column holds milestone data (`milestone_columns`). */
    predicate IsMilestoneColumn() {
      this == MilestoneTitle || this == MilestoneStatus || this == MilestoneDeadline
    }
  }

  /** The key that names a column in a request. */
  function Key(c: Column): string {
    match c
    case Id => "id"
    case Title => "title"
    case Status => "status"
    case Priority => "priority"
    case AssignedTo => "assigned_to"
    case Deadline => "deadline"
    case Folder => "folder"
    case MilestoneTitle => "milestone"
    case MilestoneStatus => "milestone_status"
    case MilestoneDeadline => "milestone_deadline"
  }

  /** Looking a key up in `column_labels`: the column it names, if any. */
  function ParseColumn(key: string): (r: Option<Column>)
    ensures r.Some? ==> Key(r.value) == key
    ensures r.None? ==> forall c: Column :: Key(c) != key
  {
    if key == "id" then Some(Id)
    else if key == "title" then Some(Title)
    else if key == "status" then Some(Status)
    else if key == "priority" then Some(Priority)
    else if key == "assigned_to" then Some(AssignedTo)
    else if key == "deadline" then Some(Deadline)
    else if key == "folder" then Some(Folder)
    else if key == "milestone" then Some(MilestoneTitle)
    else if key == "milestone_status" then Some(MilestoneStatus)
    else if key == "milestone_deadline" then Some(MilestoneDeadline)
    else None
  }

  /** Every column's key reads back as that column, so no two columns share a key. */
  lemma ParseKey(c: Column)
    ensures ParseColumn(Key(c)) == Some(c)
  {
  }

  /** The columns in the order of `column_labels`, the default selection. */
  const ALL_COLUMNS: seq<Column> := [Id, Title, Status, Priority, AssignedTo, Deadline, Folder,
                                     MilestoneTitle, MilestoneStatus, MilestoneDeadline]

  /** `column_labels[key]` of each generator. */
  function Label(fmt: Format, c: Column): string {
    match c
    case Id => if fmt == Excel then "Task ID" else "ID"
    case Title => if fmt == Excel then "Title" else "Task"
    case Status => "Status"
    case Priority => "Priority"
    case AssignedTo => "Assigned To"
    case Deadline => if fmt == Excel then "Final Deadline" else "Deadline"
    case Folder => "Folder"
    case MilestoneTitle => "Milestone"
    case MilestoneStatus => if fmt == Excel then "Milestone Status" else "MS Status"
    case MilestoneDeadline => if fmt == Excel then "Milestone Deadline" else "MS Deadline"
  }

  /** The requested keys as columns: `if not columns` takes every column, and
      an unknown key raises `KeyError`, which the server answers with HTTP 500. */
  function ChosenColumns(keys: seq<string>): (r: Result<seq<Column>>)
    ensures keys == [] ==> r == Ok(ALL_COLUMNS)
    ensures keys != [] ==> (r.Ok? <==> forall i :: 0 <= i < |keys| ==> ParseColumn(keys[i]).Some?)
    ensures keys != [] && r.Ok? ==> |r.value| == |keys| && forall i :: 0 <= i < |keys| ==> Key(r.value[i]) == keys[i]
    ensures r.Err? ==> r.code == 500
  {
    if keys == [] then Ok(ALL_COLUMNS) else ParseColumns(keys)
  }

  function ParseColumns(keys: seq<string>): (r: Result<seq<Column>>)
    ensures r.Ok? <==> forall i :: 0 <= i < |keys| ==> ParseColumn(keys[i]).Some?
    ensures r.Ok? ==> |r.value| == |keys| && forall i :: 0 <= i < |keys| ==> Key(r.value[i]) == keys[i]
    ensures r.Err? ==> r.code == 500
  {
    if keys == [] then Ok([])
    else
      var c := ParseColumn(keys[0]);
      var rest := ParseColumns(keys[1..]);
      assert forall i :: 1 <= i < |keys| ==> keys[1..][i - 1] == keys[i];
      if c.None? || rest.Err? then Err(500)
      else Ok([c.value] + rest.value)
  }

  /** `[column_labels[c] for c in columns]`. */
  function Header(fmt: Format, cols: seq<Column>): (r: seq<Cell>)
    ensures |r| == |cols|
    ensures forall i :: 0 <= i < |cols| ==> r[i] == Str(Label(fmt, cols[i]))
  {
    seq(|cols|, i requires 0 <= i < |cols| => Str(Label(fmt, cols[i])))
  }

  /** `_apply_filters`: deadline range and status, each only when given. */
  function ApplyFilters(tasks: seq<Task>, fromDate: Option<Date>, toDate: Option<Date>, status: Option<string>)
    : seq<Task>
  {
    var q1 := if fromDate.Some? then Filter(tasks, (t: Task) => t.finalDeadline >= fromDate.value) else tasks;
    var q2 := if toDate.Some? then Filter(q1, (t: Task) => t.finalDeadline <= toDate.value) else q1;
    if Given(status) then Filter(q2, (t: Task) => t.status == status.value) else q2
  }

  /** A task passes the report filters iff its deadline lies in the given
      range and its status is the given one; the filters keep table order. */
  lemma ApplyFiltersSpec(tasks: seq<Task>, fromDate: Option<Date>, toDate: Option<Date>, status: Option<string>, t: Task)
    ensures t in ApplyFilters(tasks, fromDate, toDate, status) <==>
      && t in tasks
      && (fromDate.Some? ==> t.finalDeadline >= fromDate.value)
      && (toDate.Some? ==> t.finalDeadline <= toDate.value)
      && (Given(status) ==> t.status == status.value)
    ensures multiset(ApplyFilters(tasks, fromDate, toDate, status)) <= multiset(tasks)
  {
    var q1 := if fromDate.Some? then Filter(tasks, (x: Task) => x.finalDeadline >= fromDate.value) else tasks;
    var q2 := if toDate.Some? then Filter(q1, (x: Task) => x.finalDeadline <= toDate.value) else q1;
    if fromDate.Some? {
      FilterMultiset(tasks, (x: Task) => x.finalDeadline >= fromDate.value);
    }
    if toDate.Some? {
      FilterMultiset(q1, (x: Task) => x.finalDeadline <= toDate.value);
    }
    if Given(status) {
      FilterMultiset(q2, (x: Task) => x.status == status.value);
    }
  }

  /** The tasks a report holds: non-archived, then `_apply_filters`. */
  function ReportTasks(tasks: seq<Task>, fromDate: Option<Date>, toDate: Option<Date>, status: Option<string>)
    : seq<Task>
  {
    ApplyFilters(Filter(tasks, (t: Task) => !t.archived), fromDate, toDate, status)
  }

  /** A task is in a report iff it is a non-archived task of the table whose
      deadline lies in the given range and whose status is the given one. */
  lemma ReportTasksSpec(tasks: seq<Task>, fromDate: Option<Date>, toDate: Option<Date>, status: Option<string>, t: Task)
    ensures t in ReportTasks(tasks, fromDate, toDate, status) <==>
      && t in tasks && !t.archived
      && (fromDate.Some? ==> t.finalDeadline >= fromDate.value)
      && (toDate.Some? ==> t.finalDeadline <= toDate.value)
      && (Given(status) ==> t.status == status.value)
  {
    ApplyFiltersSpec(Filter(tasks, (x: Task) => !x.archived), fromDate, toDate, status, t);
  }

  /** The quick tasks a report holds: none when a status other than
      Completed is asked for, otherwise those completed within the range. */
  function ReportQuickTasks(quick: seq<QuickTask>, fromDate: Option<Date>, toDate: Option<Date>, status: Option<string>)
    : seq<QuickTask>
  {
    if Given(status) && status.value != COMPLETED then []
    else
      var q1 := if fromDate.Some? then Filter(quick, (q: QuickTask) => q.completedOn >= fromDate.value) else quick;
      if toDate.Some? then Filter(q1, (q: QuickTask) => q.completedOn <= toDate.value) else q1
  }

  lemma ReportQuickTasksSpec(quick: seq<QuickTask>, fromDate: Option<Date>, toDate: Option<Date>,
                             status: Option<string>, q: QuickTask)
    ensures Given(status) && status.value != COMPLETED ==> ReportQuickTasks(quick, fromDate, toDate, status) == []
    ensures !(Given(status) && status.value != COMPLETED) ==>
      (q in ReportQuickTasks(quick, fromDate, toDate, status) <==>
        q in quick && (fromDate.Some? ==> q.completedOn >= fromDate.value) && (toDate.Some? ==> q.completedOn <= toDate.value))
  {
  }

  // ---------------------------------------------------------------------
  // Row layout

  /** `any(c in milestone_columns for c in columns)`. */
  predicate IncludeMilestones(cols: seq<Column>) {
    exists i :: 0 <= i < |cols| && cols[i].IsMilestoneColumn()
  }

  /** A loaded user's name, or "-" when there is none. */
  function UserName(u: Option<User>): string {
    if u.Some? then u.value.username else "-"
  }

  /** `task_row(task, blank_milestones)`'s value under column `c`. */
  function TaskValue(fmt: Format, users: seq<User>, t: Task, blank: bool, c: Column): (r: Cell)
    ensures c.IsMilestoneColumn() ==> r == Str(if blank then "" else "-")
  {
    match c
    case Id => if fmt == Excel then Number(t.id) else Str(NatToString(t.id))
    case Title => Str(t.title)
    case Status => Str(t.status)
    case Priority => Str(t.priority)
    case AssignedTo => Str(UserName(Assignee(users, t)))
    case Deadline => Day(t.finalDeadline)
    case Folder => Str(if Given(t.folderLink) then t.folderLink.value else "-")
    case _ => Str(if blank then "" else "-")
  }

  /** `milestone_row(m)`'s value under column `c`: the task columns are blank. */
  function MilestoneValue(m: Milestone, c: Column): (r: Cell)
    ensures !c.IsMilestoneColumn() ==> r == Str("")
  {
    match c
    case MilestoneTitle => Str(m.title)
    case MilestoneStatus => Str(m.status)
    case MilestoneDeadline => Day(m.deadline)
    case _ => Str("")
  }

  /** A quick task's value under column `c`. */
  function QuickValue(users: seq<User>, q: QuickTask, c: Column): Cell {
    match c
    case Id => Str("Q-" + NatToString(q.id))
    case Title => Str(q.title)
    case Status => Str(COMPLETED)
    case Priority => Str("Normal")
    case AssignedTo => Str(UserName(FindUser(users, q.createdById)))
    case Deadline => Day(q.completedOn)
    case _ => Str("-")
  }

  function TaskRow(fmt: Format, users: seq<User>, t: Task, blank: bool, cols: seq<Column>): (r: seq<Cell>)
    ensures |r| == |cols|
    ensures forall i :: 0 <= i < |cols| ==> r[i] == TaskValue(fmt, users, t, blank, cols[i])
  {
    seq(|cols|, i requires 0 <= i < |cols| => TaskValue(fmt, users, t, blank, cols[i]))
  }

  function MilestoneRow(m: Milestone, cols: seq<Column>): (r: seq<Cell>)
    ensures |r| == |cols|
    ensures forall i :: 0 <= i < |cols| ==> r[i] == MilestoneValue(m, cols[i])
  {
    seq(|cols|, i requires 0 <= i < |cols| => MilestoneValue(m, cols[i]))
  }

  function QuickRow(users: seq<User>, q: QuickTask, cols: seq<Column>): (r: seq<Cell>)
    ensures |r| == |cols|
    ensures forall i :: 0 <= i < |cols| ==> r[i] == QuickValue(users, q, cols[i])
  {
    seq(|cols|, i requires 0 <= i < |cols| => QuickValue(users, q, cols[i]))
  }

  /** The rows of milestones `own`, in order. */
  function MilestoneRows(own: seq<Milestone>, cols: seq<Column>): seq<seq<Cell>> {
    if own == [] then [] else MilestoneRows(own[..|own| - 1], cols) + [MilestoneRow(own[|own| - 1], cols)]
  }

  /** Whether a task expands to its milestones' rows. */
  predicate Expands(ms: seq<Milestone>, t: Task, cols: seq<Column>) {
    TaskMilestones(ms, t.id) != [] && IncludeMilestones(cols)
  }

  /** The rows one task contributes. */
  function RowsOfTask(fmt: Format, users: seq<User>, ms: seq<Milestone>, t: Task, cols: seq<Column>)
    : seq<seq<Cell>>
  {
    if Expands(ms, t, cols) then [TaskRow(fmt, users, t, true, cols)] + MilestoneRows(TaskMilestones(ms, t.id), cols)
    else [TaskRow(fmt, users, t, false, cols)]
  }

  /** The rows of tasks `ts`, in order. */
  function RowsOfTasks(fmt: Format, users: seq<User>, ms: seq<Milestone>, ts: seq<Task>, cols: seq<Column>)
    : seq<seq<Cell>>
  {
    if ts == [] then []
    else RowsOfTasks(fmt, users, ms, ts[..|ts| - 1], cols) + RowsOfTask(fmt, users, ms, ts[|ts| - 1], cols)
  }

  /** The rows of quick tasks `qs`, in order. */
  function RowsOfQuickTasks(users: seq<User>, qs: seq<QuickTask>, cols: seq<Column>): seq<seq<Cell>> {
    if qs == [] then [] else RowsOfQuickTasks(users, qs[..|qs| - 1], cols) + [QuickRow(users, qs[|qs| - 1], cols)]
  }

  /** The row the PDF adds to an empty report: nine cells, whatever the columns. */
  const PLACEHOLDER: seq<Cell> := [Str("-"), Str("No tasks found"), Str("-"), Str("-"), Str("-"),
                                   Str("-"), Str("-"), Str("-"), Str("-")]

  /** The table a generator lays out, header first. */
  function ReportTable(fmt: Format, users: seq<User>, tasks: seq<Task>, ms: seq<Milestone>, quick: seq<QuickTask>,
                       fromDate: Option<Date>, toDate: Option<Date>, status: Option<string>, keys: seq<string>)
    : Result<seq<seq<Cell>>>
  {
    var chosen := ChosenColumns(keys);
    if chosen.Err? then Err(500)
    else
      var cols := chosen.value;
      var ts := ReportTasks(tasks, fromDate, toDate, status);
      var qs := ReportQuickTasks(quick, fromDate, toDate, status);
      var rows := [Header(fmt, cols)] + RowsOfTasks(fmt, users, ms, ts, cols) + RowsOfQuickTasks(users, qs, cols);
      Ok(if fmt == Pdf && ts == [] && qs == [] then rows + [PLACEHOLDER] else rows)
  }

  /** `generate_tasks_excel` / `generate_tasks_pdf` up to the rendering: the
      header, then a loop over the tasks (and their milestones), then one over
      the quick tasks, appending rows. */
  method GenerateReport(fmt: Format, users: seq<User>, tasks: seq<Task>, ms: seq<Milestone>, quick: seq<QuickTask>,
                        fromDate: Option<Date>, toDate: Option<Date>, status: Option<string>, keys: seq<string>)
    returns (r: Result<seq<seq<Cell>>>)
    ensures r == ReportTable(fmt, users, tasks, ms, quick, fromDate, toDate, status, keys)
  {
    var chosen := ChosenColumns(keys);
    if chosen.Err? {
      return Err(500);
    }
    var cols := chosen.value;
    var ts := ReportTasks(tasks, fromDate, toDate, status);
    var qs := ReportQuickTasks(quick, fromDate, toDate, status);
    var taskRows := TaskRowsLoop(fmt, users, ms, ts, cols);
    var quickRows := QuickRowsLoop(users, qs, cols);
    var rows := [Header(fmt, cols)] + taskRows + quickRows;
    if fmt == Pdf && ts == [] && qs == [] {
      rows := rows + [PLACEHOLDER];
    }
    r := Ok(rows);
  }

  /** The loop over the tasks: each task's row and, when it expands, its
      milestones' rows, in order. */
  method TaskRowsLoop(fmt: Format, users: seq<User>, ms: seq<Milestone>, ts: seq<Task>, cols: seq<Column>)
    returns (rows: seq<seq<Cell>>)
    ensures rows == RowsOfTasks(fmt, users, ms, ts, cols)
  {
    rows := [];
    for i := 0 to |ts|
      invariant rows == RowsOfTasks(fmt, users, ms, ts[..i], cols)
    {
      var t := ts[i];
      var own := TaskMilestones(ms, t.id);
      var taskRows: seq<seq<Cell>>;
      if own != [] && IncludeMilestones(cols) {
        var milestoneRows := MilestoneRowsLoop(own, cols);
        taskRows := [TaskRow(fmt, users, t, true, cols)] + milestoneRows;
      } else {
        taskRows := [TaskRow(fmt, users, t, false, cols)];
      }
      RowsOfTasksSnoc(fmt, users, ms, ts, cols, i);
      rows := rows + taskRows;
    }
    assert ts[..|ts|] == ts;
  }

  /** One more task: its rows follow those of the tasks before it. */
  lemma RowsOfTasksSnoc(fmt: Format, users: seq<User>, ms: seq<Milestone>, ts: seq<Task>, cols: seq<Column>, i: nat)
    requires i < |ts|
    ensures RowsOfTasks(fmt, users, ms, ts[..i + 1], cols)
      == RowsOfTasks(fmt, users, ms, ts[..i], cols) + RowsOfTask(fmt, users, ms, ts[i], cols)
  {
    assert ts[..i + 1][..i] == ts[..i];
  }

  /** The inner loop over one task's milestones. */
  method MilestoneRowsLoop(own: seq<Milestone>, cols: seq<Column>) returns (rows: seq<seq<Cell>>)
    ensures rows == MilestoneRows(own, cols)
  {
    rows := [];
    for j := 0 to |own|
      invariant rows == MilestoneRows(own[..j], cols)
    {
      assert own[..j + 1][..j] == own[..j];
      rows := rows + [MilestoneRow(own[j], cols)];
    }
    assert own[..|own|] == own;
  }

  /** The loop over the quick tasks. */
  method QuickRowsLoop(users: seq<User>, qs: seq<QuickTask>, cols: seq<Column>) returns (rows: seq<seq<Cell>>)
    ensures rows == RowsOfQuickTasks(users, qs, cols)
  {
    rows := [];
    for k := 0 to |qs|
      invariant rows == RowsOfQuickTasks(users, qs[..k], cols)
    {
      assert qs[..k + 1][..k] == qs[..k];
      rows := rows + [QuickRow(users, qs[k], cols)];
    }
    assert qs[..|qs|] == qs;
  }

  // ---------------------------------------------------------------------
  // Properties of the layout

  lemma {:induction false} MilestoneRowsSpec(own: seq<Milestone>, cols: seq<Column>)
    ensures |MilestoneRows(own, cols)| == |own|
    ensures forall k :: 0 <= k < |own| ==> MilestoneRows(own, cols)[k] == MilestoneRow(own[k], cols)
  {
    if own != [] {
      MilestoneRowsSpec(own[..|own| - 1], cols);
    }
  }

  /** A task with milestones, when a milestone column is chosen, is one row
      with blank milestone cells followed by one row per milestone in sequence
      order; otherwise it is one row with "-" in the milestone cells. */
  lemma RowsOfTaskSpec(fmt: Format, users: seq<User>, ms: seq<Milestone>, t: Task, cols: seq<Column>)
    ensures var rows := RowsOfTask(fmt, users, ms, t, cols);
      var own := TaskMilestones(ms, t.id);
      var expand := Expands(ms, t, cols);
      && |rows| == (if expand then 1 + |own| else 1)
      && (forall i :: 0 <= i < |cols| && cols[i].IsMilestoneColumn() ==> rows[0][i] == Str(if expand then "" else "-"))
      && (expand ==> forall k :: 0 <= k < |own| ==> rows[k + 1] == MilestoneRow(own[k], cols))
      && (expand <==> own != [] && exists i :: 0 <= i < |cols| && cols[i].IsMilestoneColumn())
  {
    MilestoneRowsSpec(TaskMilestones(ms, t.id), cols);
  }

  /** One task's rows each have one cell per chosen column; without a
      milestone column the task is exactly one row. */
  lemma RowsOfTaskWidth(fmt: Format, users: seq<User>, ms: seq<Milestone>, t: Task, cols: seq<Column>)
    ensures forall row :: row in RowsOfTask(fmt, users, ms, t, cols) ==> |row| == |cols|
    ensures |RowsOfTask(fmt, users, ms, t, cols)| >= 1
    ensures !IncludeMilestones(cols) ==> |RowsOfTask(fmt, users, ms, t, cols)| == 1
  {
    if Expands(ms, t, cols) {
      var mrows := MilestoneRows(TaskMilestones(ms, t.id), cols);
      var rows := [TaskRow(fmt, users, t, true, cols)] + mrows;
      assert RowsOfTask(fmt, users, ms, t, cols) == rows;
      MilestoneRowsSpec(TaskMilestones(ms, t.id), cols);
      assert forall row :: row in mrows ==> |row| == |cols|;
    }
  }

  /** Every task and milestone row has one cell per chosen column, and
      without a milestone column each task is exactly one row. */
  lemma {:induction false} RowsOfTasksWidth(fmt: Format, users: seq<User>, ms: seq<Milestone>, ts: seq<Task>,
                                           cols: seq<Column>)
    ensures forall row :: row in RowsOfTasks(fmt, users, ms, ts, cols) ==> |row| == |cols|
    ensures |RowsOfTasks(fmt, users, ms, ts, cols)| >= |ts|
    ensures !IncludeMilestones(cols) ==> |RowsOfTasks(fmt, users, ms, ts, cols)| == |ts|
  {
    if ts != [] {
      var init := RowsOfTasks(fmt, users, ms, ts[..|ts| - 1], cols);
      var last := RowsOfTask(fmt, users, ms, ts[|ts| - 1], cols);
      RowsOfTasksWidth(fmt, users, ms, ts[..|ts| - 1], cols);
      RowsOfTaskWidth(fmt, users, ms, ts[|ts| - 1], cols);
      assert RowsOfTasks(fmt, users, ms, ts, cols) == init + last;
    }
  }

  /** Quick-task rows: one per quick task, in order. */
  lemma {:induction false} RowsOfQuickTasksSpec(users: seq<User>, qs: seq<QuickTask>, cols: seq<Column>)
    ensures |RowsOfQuickTasks(users, qs, cols)| == |qs|
    ensures forall k :: 0 <= k < |qs| ==> RowsOfQuickTasks(users, qs, cols)[k] == QuickRow(users, qs[k], cols)
  {
    if qs != [] {
      var init := qs[..|qs| - 1];
      var prev := RowsOfQuickTasks(users, init, cols);
      var rows := prev + [QuickRow(users, qs[|qs| - 1], cols)];
      assert RowsOfQuickTasks(users, qs, cols) == rows;
      RowsOfQuickTasksSpec(users, init, cols);
      forall k | 0 <= k < |qs| ensures rows[k] == QuickRow(users, qs[k], cols) {
        if k < |init| {
          assert rows[k] == prev[k] && qs[k] == init[k];
        }
      }
    }
  }

  /** A quick task shows as `Q-<id>`, Completed, priority Normal, its
      completion day as the deadline and "-" in the folder and milestone cells. */
  lemma QuickRowSpec(users: seq<User>, q: QuickTask, cols: seq<Column>, i: int)
    requires 0 <= i < |cols|
    ensures var cell := QuickRow(users, q, cols)[i];
      && (cols[i] == Id ==> cell == Str("Q-" + NatToString(q.id)))
      && (cols[i] == Status ==> cell == Str(COMPLETED))
      && (cols[i] == Priority ==> cell == Str("Normal"))
      && (cols[i] == Deadline ==> cell == Day(q.completedOn))
      && (cols[i] == Folder || cols[i].IsMilestoneColumn() ==> cell == Str("-"))
  {
  }

  /** Without columns the report uses all ten, in `column_labels` order, one
      of which is a milestone column; the Excel header is then the ten labels. */
  lemma DefaultColumns()
    ensures ChosenColumns([]) == Ok(ALL_COLUMNS)
    ensures |ALL_COLUMNS| == 10 && forall c: Column :: c in ALL_COLUMNS
    ensures Header(Excel, ALL_COLUMNS) == [Str("Task ID"), Str("Title"), Str("Status"), Str("Priority"),
      Str("Assigned To"), Str("Final Deadline"), Str("Folder"), Str("Milestone"), Str("Milestone Status"),
      Str("Milestone Deadline")]
    ensures IncludeMilestones(ALL_COLUMNS)
  {
    forall c: Column ensures c in ALL_COLUMNS {
      var k := match c
        case Id => 0 case Title => 1 case Status => 2 case Priority => 3 case AssignedTo => 4
        case Deadline => 5 case Folder => 6 case MilestoneTitle => 7 case MilestoneStatus => 8
        case MilestoneDeadline => 9;
      assert ALL_COLUMNS[k] == c;
    }
    assert ALL_COLUMNS[7].IsMilestoneColumn();
  }

  /** The header, task and quick-task rows all have one cell per column. */
  lemma BodyWidth(fmt: Format, users: seq<User>, ms: seq<Milestone>, ts: seq<Task>, qs: seq<QuickTask>,
                  cols: seq<Column>)
    ensures var body := [Header(fmt, cols)] + RowsOfTasks(fmt, users, ms, ts, cols) + RowsOfQuickTasks(users, qs, cols);
      forall row :: row in body ==> |row| == |cols|
  {
    RowsOfTasksWidth(fmt, users, ms, ts, cols);
    RowsOfQuickTasksSpec(users, qs, cols);
    forall row | row in RowsOfQuickTasks(users, qs, cols) ensures |row| == |cols| {
      var k :| 0 <= k < |qs| && RowsOfQuickTasks(users, qs, cols)[k] == row;
    }
  }

  /** A report fails exactly when a requested key names no column. In a
      successful report every row has one cell per chosen column, except the
      PDF's empty-report row, which has nine: one fewer than the header when
      the default columns are used. */
  lemma ReportWidth(fmt: Format, users: seq<User>, tasks: seq<Task>, ms: seq<Milestone>, quick: seq<QuickTask>,
                    fromDate: Option<Date>, toDate: Option<Date>, status: Option<string>, keys: seq<string>)
    ensures var r := ReportTable(fmt, users, tasks, ms, quick, fromDate, toDate, status, keys);
      && (r.Err? <==> keys != [] && exists i :: 0 <= i < |keys| && ParseColumn(keys[i]).None?)
      && (r.Ok? ==> |r.value[0]| == (if keys == [] then 10 else |keys|))
      && (r.Ok? ==> forall row :: row in r.value ==> |row| == |r.value[0]| || (fmt == Pdf && row == PLACEHOLDER))
      && (r.Ok? && keys == [] && fmt == Pdf ==> |PLACEHOLDER| == |r.value[0]| - 1)
  {
    var chosen := ChosenColumns(keys);
    if chosen.Ok? {
      var cols := chosen.value;
      var ts := ReportTasks(tasks, fromDate, toDate, status);
      var qs := ReportQuickTasks(quick, fromDate, toDate, status);
      var body := [Header(fmt, cols)] + RowsOfTasks(fmt, users, ms, ts, cols) + RowsOfQuickTasks(users, qs, cols);
      var rows := if fmt == Pdf && ts == [] && qs == [] then body + [PLACEHOLDER] else body;
      assert ReportTable(fmt, users, tasks, ms, quick, fromDate, toDate, status, keys) == Ok(rows);
      assert rows[0] == Header(fmt, cols);
      BodyWidth(fmt, users, ms, ts, qs, cols);
    }
  }

  // ---------------------------------------------------------------------
  // get_filtered_tasks

  /** The filter dictionary of `get_filtered_tasks`. */
  datatype TaskFilters = TaskFilters(
    status: Option<string>,
    priority: Option<string>,
    typeId: Option<int>,
    assignedToId: Option<int>,
    fromDate: Option<Date>,
    toDate: Option<Date>)

  /** Whether task `t` passes every present filter. */
  predicate PassesFilters(f: TaskFilters, t: Task) {
    && !t.archived
    && (Given(f.status) ==> t.status == f.status.value)
    && (Given(f.priority) ==> t.priority == f.priority.value)
    && (GivenInt(f.typeId) ==> t.typeId == f.typeId.value)
    && (GivenInt(f.assignedToId) ==> t.assignedToId == Some(f.assignedToId.value))
    && (f.fromDate.Some? ==> t.finalDeadline >= f.fromDate.value)
    && (f.toDate.Some? ==> t.finalDeadline <= f.toDate.value)
  }

  /** The query of `get_filtered_tasks` before its `order_by`: one filter per
      present field, after the archived tasks are dropped. */
  function FilteredTasks(tasks: seq<Task>, f: TaskFilters): seq<Task> {
    var q0 := Filter(tasks, (t: Task) => !t.archived);
    var q1 := if Given(f.status) then Filter(q0, (t: Task) => t.status == f.status.value) else q0;
    var q2 := if Given(f.priority) then Filter(q1, (t: Task) => t.priority == f.priority.value) else q1;
    var q3 := if GivenInt(f.typeId) then Filter(q2, (t: Task) => t.typeId == f.typeId.value) else q2;
    var q4 := if GivenInt(f.assignedToId) then Filter(q3, (t: Task) => t.assignedToId == Some(f.assignedToId.value)) else q3;
    var q5 := if f.fromDate.Some? then Filter(q4, (t: Task) => t.finalDeadline >= f.fromDate.value) else q4;
    if f.toDate.Some? then Filter(q5, (t: Task) => t.finalDeadline <= f.toDate.value) else q5
  }

  /** `get_filtered_tasks(db, filters)`: the filtered query ordered by deadline. */
  function GetFilteredTasks(tasks: seq<Task>, f: TaskFilters): seq<Task> {
    SortBy(FilteredTasks(tasks, f), (t: Task) => t.finalDeadline)
  }

  /** The filters keep exactly the non-archived tasks passing every present filter. */
  lemma FilteredTasksSpec(tasks: seq<Task>, f: TaskFilters, t: Task)
    ensures t in FilteredTasks(tasks, f) <==> t in tasks && PassesFilters(f, t)
  {
  }

  /** The result holds exactly the non-archived tasks passing every present
      filter, sorted by deadline ascending. */
  lemma GetFilteredTasksSpec(tasks: seq<Task>, f: TaskFilters, t: Task)
    ensures t in GetFilteredTasks(tasks, f) <==> t in tasks && PassesFilters(f, t)
    ensures SortedBy(GetFilteredTasks(tasks, f), (x: Task) => x.finalDeadline)
  {
    var q := FilteredTasks(tasks, f);
    FilteredTasksSpec(tasks, f, t);
    assert t in GetFilteredTasks(tasks, f) <==> t in multiset(q);
  }
}
