/** The report pages (`app/routes/report_pages.py`): the paginated on-screen
    report that mixes tasks with quick tasks, and the Excel and PDF downloads. */
module ReportPages {
  import opened Basics
  import opened Entities
  import opened Seqs
  import opened Text
  import opened Store
  import opened ReportService

  /** Rows per page of the on-screen report. */
  const PER_PAGE: nat := 10

  /** `_parse_date`: a missing or blank value is no bound; anything else must
      be an ISO date once stripped, or the request fails with HTTP 400.
      `fromIso` is `date.fromisoformat`. */
  function ParseReportDate(value: Option<string>, fromIso: string -> Option<Date>): (r: Result<Option<Date>>)
    ensures r == Ok(None) <==> value.None? || Trim(value.value) == ""
    ensures r.Err? ==> r.code == 400 && value.Some? && fromIso(Trim(value.value)).None?
    ensures r.Ok? && r.value.Some? ==> value.Some? && fromIso(Trim(value.value)) == r.value
    ensures value.Some? && Trim(value.value) != "" && fromIso(Trim(value.value)).Some? ==>
      r == Ok(fromIso(Trim(value.value)))
  {
    if value.None? then Ok(None)
    else
      var v := Trim(value.value);
      if v == "" then Ok(None)
      else
        var d := fromIso(v);
        if d.None? then Err(400) else Ok(d)
  }

  // ---------------------------------------------------------------------
  // The on-screen report

  /** One line of the on-screen report: a task, or a quick task shown as a
      completed task of priority Normal. */
  datatype ReportItem = TaskItem(task: Task) | QuickItem(quick: QuickTask)

  /** `x.final_deadline or date.min`; neither kind of row has a null date. */
  function ItemDeadline(x: ReportItem): Date {
    match x
    case TaskItem(t) => t.finalDeadline
    case QuickItem(q) => q.completedOn
  }

  function ItemStatus(x: ReportItem): (r: string)
    ensures x.QuickItem? ==> r == COMPLETED
  {
    match x
    case TaskItem(t) => t.status
    case QuickItem(_) => COMPLETED
  }

  function ItemPriority(x: ReportItem): (r: string)
    ensures x.QuickItem? ==> r == "Normal"
  {
    match x
    case TaskItem(t) => t.priority
    case QuickItem(_) => "Normal"
  }

  /** Where the line links to. */
  function ItemUrl(x: ReportItem): string {
    match x
    case TaskItem(t) => "/ui/tasks/" + NatToString(t.id)
    case QuickItem(_) => "/ui/quick-tasks"
  }

  /** A task line never links to the quick-task page, and two task lines link
      to the same page only when they show the same task id. */
  lemma ItemUrlsDistinguishTasks(x: ReportItem, y: ReportItem)
    requires x.TaskItem? && ItemUrl(x) == ItemUrl(y)
    ensures y.TaskItem? && x.task.id == y.task.id
  {
    var sx := NatToString(x.task.id);
    assert ItemUrl(x)[..10] == "/ui/tasks/";
    if y.QuickItem? {
      assert false;
    }
    var sy := NatToString(y.task.id);
    assert sx == ItemUrl(x)[10..];
    assert sy == ItemUrl(y)[10..];
  }

  /** Quick tasks are left out when a status other than Completed, a priority
      or a task type is asked for. */
  predicate QuickExcluded(f: TaskFilters) {
    (Given(f.status) && f.status.value != COMPLETED) || Given(f.priority) || GivenInt(f.typeId)
  }

  /** Whether quick task `q` passes the range and creator filters. */
  predicate QuickPasses(f: TaskFilters, q: QuickTask) {
    && (f.fromDate.Some? ==> q.completedOn >= f.fromDate.value)
    && (f.toDate.Some? ==> q.completedOn <= f.toDate.value)
    && (GivenInt(f.assignedToId) ==> q.createdById == f.assignedToId.value)
  }

  /** The quick tasks the on-screen report lists, in table order. */
  function ListedQuickTasks(quick: seq<QuickTask>, f: TaskFilters): (r: seq<QuickTask>)
    ensures forall q :: q in r <==> q in quick && !QuickExcluded(f) && QuickPasses(f, q)
  {
    if QuickExcluded(f) then []
    else
      var q1 := if f.fromDate.Some? then Filter(quick, (q: QuickTask) => q.completedOn >= f.fromDate.value) else quick;
      var q2 := if f.toDate.Some? then Filter(q1, (q: QuickTask) => q.completedOn <= f.toDate.value) else q1;
      if GivenInt(f.assignedToId) then Filter(q2, (q: QuickTask) => q.createdById == f.assignedToId.value) else q2
  }

  function TaskItems(ts: seq<Task>): (r: seq<ReportItem>)
    ensures |r| == |ts| && forall i :: 0 <= i < |ts| ==> r[i] == TaskItem(ts[i])
  {
    if ts == [] then [] else TaskItems(ts[..|ts| - 1]) + [TaskItem(ts[|ts| - 1])]
  }

  function QuickItems(qs: seq<QuickTask>): (r: seq<ReportItem>)
    ensures |r| == |qs| && forall i :: 0 <= i < |qs| ==> r[i] == QuickItem(qs[i])
  {
    if qs == [] then [] else QuickItems(qs[..|qs| - 1]) + [QuickItem(qs[|qs| - 1])]
  }

  /** `report_items`, before the page is cut: the filtered tasks, then the
      listed quick tasks, sorted (stably) by date. */
  function ReportItems(tasks: seq<Task>, quick: seq<QuickTask>, f: TaskFilters): seq<ReportItem> {
    SortBy(TaskItems(GetFilteredTasks(tasks, f)) + QuickItems(ListedQuickTasks(quick, f)), ItemDeadline)
  }

  /** Python's clamping of a slice bound `i` into a sequence of length `n`. */
  function SliceIndex(i: int, n: nat): (r: nat)
    ensures r <= n
    ensures 0 <= i <= n ==> r == i
    ensures i > n ==> r == n
  {
    if i < 0 then (if n + i < 0 then 0 else n + i) else if i > n then n else i
  }

  /** Python's `s[start:stop]`, negative bounds counting from the end. */
  function PySlice<T>(s: seq<T>, start: int, stop: int): (r: seq<T>)
    ensures |r| <= |s|
  {
    var a, b := SliceIndex(start, |s|), SliceIndex(stop, |s|);
    if a < b then s[a..b] else []
  }

  /** The items shown on page `page`: `report_items[offset:offset + PER_PAGE]`. */
  function PageOf<T>(items: seq<T>, page: int): seq<T> {
    var offset := (page - 1) * PER_PAGE;
    PySlice(items, offset, offset + PER_PAGE)
  }

  /** `ceil(total / PER_PAGE) if total else 1`. */
  function TotalPages(total: nat): (r: nat)
    ensures r >= 1
    ensures total > 0 ==> (r - 1) * PER_PAGE < total <= r * PER_PAGE
    ensures total == 0 ==> r == 1
  {
    if total == 0 then 1 else (total + PER_PAGE - 1) / PER_PAGE
  }

  /** What `report_list` answers. */
  datatype ListPage =
    | LoginPage
    | ReportPage(items: seq<ReportItem>, page: int, totalPages: nat, total: nat, columns: seq<string>)

  /** The column keys the page shows: `DEFAULT_COLUMNS` when none are asked for. */
  function ListColumns(columns: seq<string>): (r: seq<string>)
    ensures columns == [] ==> |r| == 10 && forall i :: 0 <= i < 10 ==> r[i] == Key(ALL_COLUMNS[i])
    ensures columns != [] ==> r == columns
  {
    if columns == [] then ["id", "title", "status", "priority", "assigned_to", "deadline", "folder",
                           "milestone", "milestone_status", "milestone_deadline"]
    else columns
  }

  /** `report_list`: a signed-out visitor sees the login page; otherwise the
      page of the merged, date-sorted report items, with the page count and
      the total. */
  method ReportList(db: Database, user: Option<User>, f: TaskFilters, columns: seq<string>, page: int)
    returns (r: ListPage)
    ensures user.None? ==> r == LoginPage
    ensures user.Some? ==> r.ReportPage?
    ensures r.ReportPage? ==>
      var all := ReportItems(db.tasks, db.quickTasks, f);
      && r.items == PageOf(all, page)
      && r.total == |all|
      && r.totalPages == TotalPages(|all|)
      && r.columns == ListColumns(columns)
      && r.page == page
  {
    if user.None? {
      return LoginPage;
    }
    var tasks := GetFilteredTasks(db.tasks, f);
    var quick := ListedQuickTasks(db.quickTasks, f);
    var taskPart := TaskItemsLoop(tasks);
    var quickPart := QuickItemsLoop(quick);
    var items := SortBy(taskPart + quickPart, ItemDeadline);
    var total := |items|;
    r := ReportPage(PageOf(items, page), page, TotalPages(total), total, ListColumns(columns));
  }

  /** The loop that appends each task as a report item. */
  method TaskItemsLoop(tasks: seq<Task>) returns (items: seq<ReportItem>)
    ensures items == TaskItems(tasks)
  {
    items := [];
    for i := 0 to |tasks|
      invariant items == TaskItems(tasks[..i])
    {
      assert tasks[..i + 1][..i] == tasks[..i];
      items := items + [TaskItem(tasks[i])];
    }
    assert tasks[..|tasks|] == tasks;
  }

  /** The loop that appends each quick task as a report item. */
  method QuickItemsLoop(quick: seq<QuickTask>) returns (items: seq<ReportItem>)
    ensures items == QuickItems(quick)
  {
    items := [];
    for k := 0 to |quick|
      invariant items == QuickItems(quick[..k])
    {
      assert quick[..k + 1][..k] == quick[..k];
      items := items + [QuickItem(quick[k])];
    }
    assert quick[..|quick|] == quick;
  }

  // ---------------------------------------------------------------------
  // Properties of the on-screen report

  /** A report item of a task is in the merged list iff the task is, and
      one of a quick task iff the quick task is. */
  lemma {:induction false} MergedItems(ts: seq<Task>, qs: seq<QuickTask>, t: Task, q: QuickTask)
    ensures TaskItem(t) in TaskItems(ts) + QuickItems(qs) <==> t in ts
    ensures QuickItem(q) in TaskItems(ts) + QuickItems(qs) <==> q in qs
  {
    var merged := TaskItems(ts) + QuickItems(qs);
    if TaskItem(t) in merged {
      var i :| 0 <= i < |merged| && merged[i] == TaskItem(t);
      assert i < |ts| && ts[i] == t;
    }
    if t in ts {
      var i :| 0 <= i < |ts| && ts[i] == t;
      assert merged[i] == TaskItem(t);
    }
    if QuickItem(q) in merged {
      var i :| 0 <= i < |merged| && merged[i] == QuickItem(q);
      assert i >= |ts| && qs[i - |ts|] == q;
    }
    if q in qs {
      var i :| 0 <= i < |qs| && qs[i] == q;
      assert merged[|ts| + i] == QuickItem(q);
    }
  }

  /** The report lists each filtered task and each admitted quick task, and
      nothing else, in ascending date order; it has one line per row. */
  lemma ReportItemsSpec(tasks: seq<Task>, quick: seq<QuickTask>, f: TaskFilters, t: Task, q: QuickTask)
    ensures var items := ReportItems(tasks, quick, f);
      && (TaskItem(t) in items <==> t in tasks && PassesFilters(f, t))
      && (QuickItem(q) in items <==> q in quick && !QuickExcluded(f) && QuickPasses(f, q))
      && SortedBy(items, ItemDeadline)
      && |items| == |GetFilteredTasks(tasks, f)| + |ListedQuickTasks(quick, f)|
  {
    var ts := GetFilteredTasks(tasks, f);
    var qs := ListedQuickTasks(quick, f);
    var merged := TaskItems(ts) + QuickItems(qs);
    var items := ReportItems(tasks, quick, f);
    assert items == SortBy(merged, ItemDeadline);
    assert multiset(items) == multiset(merged);
    assert TaskItem(t) in items <==> TaskItem(t) in merged by {
      assert TaskItem(t) in items <==> TaskItem(t) in multiset(items);
      assert TaskItem(t) in merged <==> TaskItem(t) in multiset(merged);
    }
    assert QuickItem(q) in items <==> QuickItem(q) in merged by {
      assert QuickItem(q) in items <==> QuickItem(q) in multiset(items);
      assert QuickItem(q) in merged <==> QuickItem(q) in multiset(merged);
    }
    MergedItems(ts, qs, t, q);
    GetFilteredTasksSpec(tasks, f, t);
  }

  /** For a page number of at least one, the page is the run of items that
      starts at `(page - 1) * PER_PAGE`, at most `PER_PAGE` long, and the
      pages up to the page count are never empty when there are items. */
  lemma PageOfSpec<T>(items: seq<T>, page: int)
    requires page >= 1
    ensures var lo := if (page - 1) * PER_PAGE < |items| then (page - 1) * PER_PAGE else |items|;
      var hi := if page * PER_PAGE < |items| then page * PER_PAGE else |items|;
      PageOf(items, page) == items[lo..hi]
    ensures |PageOf(items, page)| <= PER_PAGE
    ensures |items| > 0 && page <= TotalPages(|items|) ==> PageOf(items, page) != []
  {
  }

  /** The pages 1 to `k`, one after another. */
  function FirstPages<T>(items: seq<T>, k: nat): seq<T> {
    if k == 0 then [] else FirstPages(items, k - 1) + PageOf(items, k)
  }

  /** Paging through 1 .. `total_pages` shows every item exactly once, in order. */
  lemma {:induction false} PagesCover<T>(items: seq<T>)
    ensures FirstPages(items, TotalPages(|items|)) == items
  {
    var n := TotalPages(|items|);
    FirstPagesPrefix(items, n);
    assert n * PER_PAGE >= |items|;
  }

  lemma {:induction false} FirstPagesPrefix<T>(items: seq<T>, k: nat)
    ensures FirstPages(items, k) == items[..if k * PER_PAGE < |items| then k * PER_PAGE else |items|]
  {
    if k > 0 {
      FirstPagesPrefix(items, k - 1);
      PageOfSpec(items, k);
    }
  }

  /** Python slicing with a page number below one: page 0 is empty, and a
      negative page counts back from the end of the report. */
  lemma PageBelowOne<T>(items: seq<T>, page: int)
    requires page <= 0
    ensures page == 0 ==> PageOf(items, page) == []
    ensures page == -1 && |items| >= 20 ==> PageOf(items, page) == items[|items| - 20..|items| - 10]
  {
  }

  // ---------------------------------------------------------------------
  // Downloads

  /** What an export route answers. */
  datatype Export =
    | ToLogin
    | Download(fmt: Format, rows: seq<seq<Cell>>)
    | Failure(code: int)

  /** `export_tasks_excel` / `export_tasks_pdf`: a signed-out visitor is sent
      to the login page; a malformed date is HTTP 400; otherwise the report
      table (HTTP 500 for an unknown column key). */
  method ExportReport(db: Database, fmt: Format, user: Option<User>, fromDate: Option<string>,
                      toDate: Option<string>, status: Option<string>, columns: seq<string>,
                      fromIso: string -> Option<Date>)
    returns (r: Export)
    ensures user.None? ==> r == ToLogin
    ensures user.Some? && ParseReportDate(fromDate, fromIso).Err? ==> r == Failure(400)
    ensures user.Some? && ParseReportDate(fromDate, fromIso).Ok? && ParseReportDate(toDate, fromIso).Err? ==>
      r == Failure(400)
    ensures user.Some? && ParseReportDate(fromDate, fromIso).Ok? && ParseReportDate(toDate, fromIso).Ok? ==>
      var table := ReportTable(fmt, db.users, db.tasks, db.milestones, db.quickTasks,
        ParseReportDate(fromDate, fromIso).value, ParseReportDate(toDate, fromIso).value, status, columns);
      r == (if table.Ok? then Download(fmt, table.value) else Failure(500))
  {
    if user.None? {
      return ToLogin;
    }
    var from := ParseReportDate(fromDate, fromIso);
    if from.Err? {
      return Failure(400);
    }
    var to := ParseReportDate(toDate, fromIso);
    if to.Err? {
      return Failure(400);
    }
    var table := GenerateReport(fmt, db.users, db.tasks, db.milestones, db.quickTasks, from.value, to.value,
                                status, columns);
    r := if table.Ok? then Download(fmt, table.value) else Failure(500);
  }
}
