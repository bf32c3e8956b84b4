# Task tracker core, modelled in Dafny

A model of the server-side core of a small task-tracking web application
(FastAPI routes over SQLAlchemy tables). Users form a manager/subordinate
hierarchy. Tasks are assigned to users and move through a review workflow:
To Do / In Progress / Returned, then Submitted for Review, then Approved or
Returned, then Completed. Tasks carry ordered milestones. An admin can
re-theme the button colours. Reports list, filter, page and export tasks
together with "quick tasks".

The model keeps the application's own vocabulary. Each Python module becomes
one Dafny module:

| Dafny file | models |
|---|---|
| `basics.dfy` | `None`-able values, HTTP errors, redirects and Python truthiness of form fields |
| `entities.dfy` | the table rows and `db.get` by primary key |
| `store.dfy` | the session: a `Database` class with one `seq` field per table; new primary keys |
| `seqs.dfy` | `WHERE` (`Filter`) and `ORDER BY` / stable `list.sort` (`SortBy`) on sequences of rows |
| `text.dfy` | `str.strip()`, `str(n)` and ASCII `lower()` |
| `privileges.dfy`, `workflow.dfy`, `permissions.dfy`, `hierarchy.dfy`, `visibility.dfy`, `theme.dfy` | the `app/utils` helpers |
| `task_service.dfy`, `milestone_service.dfy` | the services that change task and milestone rows |
| `dashboard.dfy` | the dashboard service and route |
| `report_service.dfy`, `report_pages.dfy` | report tables, exports and the paged report list |
| `task_pages.dfy`, `user_pages.dfy`, `admin_pages.dfy` | the HTML route handlers of the core |

Modelling conventions:

- Dates are day numbers (`date.toordinal()`). Timestamps are integers.
- The clock ("now", "today") is a parameter of every operation that reads it.
- A route handler is either a pure function returning a `Response` (redirect
  with status code, rendered page, or unhandled exception), or a method on the
  `Database` whose `ensures` gives the new state of every table it writes,
  stated through a "next state" function.
- `Hierarchy.Acyclic` is a deliberate strengthening. Every member that walks the
  manager graph requires it of the whole table, although the source needs less.
  `get_all_subordinate_ids` walks down through `subordinates` with no visited set,
  and every user has at most one manager. So a walk diverges, and Python raises
  `RecursionError`, only when it starts at a user who lies on a manager cycle; a
  walk started anywhere else ends even when some other part of the table is
  cyclic. Admins never walk, because `can_assign_task` and
  `apply_task_visibility` return early for them, and `can_assign_task` also
  returns early when a user assigns to themselves.

## Model

| member | source | states |
|---|---|---|
| Entities.FindUser | app/dependencies.py:17 | `db.get(User, id)` returns a row of the table that carries that key, and returns nothing only when no row carries it |
| Entities.FindUserUnique | app/models/user.py:12 | with unique primary keys, `db.get(User, u.id)` returns exactly the stored row `u` |
| Entities.TaskIndex | app/routes/task_pages.py:248 | `db.get(Task, id)` finds the position of a row with that key, and finds none only when no row has it |
| Entities.TaskIndexSameKeys | app/models/task.py:14 | changing task rows without touching their primary keys leaves every `db.get(Task, id)` lookup unchanged |
| Entities.UserIndex | app/routes/user_pages.py:100 | the position of the first user row with the key; it is the row `db.get(User, id)` returns, and no row is found only when `db.get` finds none |
| Entities.MilestoneIndex | app/routes/task_pages.py:348 | `db.get(TaskMilestone, id)` finds the position of a row with that key, and finds none only when no row has it |
| Store.NextId | app/models/task.py:14 | a new primary key is at least 1 and larger than every key already in the table, so it is fresh |
| Seqs.Filter | app/services/report_service.py:15-22 | `query.filter(p)` keeps exactly the rows satisfying `p` (membership both ways); every kept row satisfies `p`; the result is no longer than the table |
| Seqs.FilterConcat | app/services/report_service.py:15-22 | filtering distributes over concatenation of tables, so it keeps the relative order of rows |
| Seqs.FilterCongruent | app/services/report_service.py:15-22 | two conditions that agree on every row of the table select the same rows |
| Seqs.FilterFilter | app/services/report_service.py:15-22 | two chained `.filter` calls equal one filter by the conjunction |
| Seqs.FilterAll | app/utils/task_visibility.py:15-16 | a condition every row meets returns the query unchanged |
| Seqs.FilterMultiset | app/services/report_service.py:55-58 | a filtered query neither invents nor duplicates rows (sub-multiset) |
| Seqs.FilterCountDisjoint | app/routes/dashboard.py:26-30 | counts by two disjoint conditions add up to the count by their disjunction |
| Seqs.FilterCountMonotone | app/routes/dashboard.py:32-40 | a weaker condition counts at least as many rows |
| Seqs.FilterDistinct | app/models/user.py:12 | a filtered table whose keys were distinct still has distinct keys |
| Seqs.Insert | app/services/report_service.py:340 | inserting one row gives the old rows plus that row (multiset), one longer |
| Seqs.InsertSorted | app/services/report_service.py:340 | inserting into a sorted table keeps it sorted |
| Seqs.SortBy | app/services/report_service.py:340 | `order_by(key.asc())`: the result is sorted ascending by the key and is a permutation of the rows |
| Seqs.SortBySorted | app/services/report_service.py:340 | sorting an already sorted table returns it unchanged |
| Text.SkipSpaces | app/utils/theme.py:19 | the first non-whitespace position at or after `i`; everything skipped is whitespace |
| Text.DropTrailing | app/utils/theme.py:19 | the end of the text once trailing whitespace is dropped; everything dropped is whitespace and the new last character is not |
| Text.Trim | app/utils/theme.py:19 | `str.strip()`; stated by `Text.TrimSpec` and `Text.TrimUnchanged` |
| Text.TrimUnchanged | app/utils/theme.py:19 | a string with no whitespace at either end is its own `strip()` |
| Text.TrimSpec | app/utils/theme.py:19 | `strip()` returns the contiguous middle of the string: everything before and after it is whitespace, its two ends are not, and stripping twice equals stripping once |
| Text.LowerAscii | app/utils/theme.py:21 | `lower()` keeps the length and lower-cases each character in place |
| Text.NatToString | app/services/report_service.py:228 | `str(n)`: at least one digit, no leading zero unless `n` is 0, and the digits read back as `n` |
| Privileges.AnyHasCode | app/utils/privileges.py:8 | `any(p.code == code ...)` is true iff some privilege of the list has that code |
| Privileges.HasPrivilege | app/utils/privileges.py:1-8 | false without a user; otherwise true iff the user is an admin or holds a privilege with that code |
| Privileges.HasPrivilegeMonotone | app/utils/privileges.py:1-8 | granting a privilege never takes another away |
| Workflow.CanSubmitForReview | app/utils/workflow.py:4-7 | `can_submit_for_review`: the assignee, from To Do, In Progress or Returned; its consequences are stated by `Workflow.SubmitAndReviewExclusive` and `TaskService.ReturnAllowsResubmission` |
| Workflow.CanReviewTask | app/utils/workflow.py:10-14 | `can_review_task`: false without an assignee, otherwise `can_assign_task` to the assignee while the task is Submitted for Review; stated by `Workflow.CanReviewTaskSpec` |
| Workflow.CanCompleteTask | app/utils/workflow.py:17-18 | `can_complete_task`: an admin from any status, anyone once Approved; used by `TaskService.ApprovalAllowsCompletion` |
| Workflow.CanReviewTaskSpec | app/utils/workflow.py:10-14 | refused for a task without an assignee row; otherwise allowed iff the reviewer is an admin, the assignee, or someone the assignee reports to, and the task is Submitted for Review |
| Workflow.AssigneeMayReviewOwnSubmission | app/utils/workflow.py:10-14 | an assignee may review their own submission, because `can_assign_task` allows self-assignment |
| Workflow.SubmitAndReviewExclusive | app/utils/workflow.py:4-14 | no task can be both submitted and reviewed, whoever asks |
| Theme.IsHexColor | app/utils/theme.py:4 | `HEX_COLOR_RE`: `#` and exactly six hexadecimal digits; used by `Theme.SanitizeHexColorSpec` |
| Theme.SanitizeHexColor | app/utils/theme.py:15-23 | the result is the fallback or a lower-case `#RRGGBB` colour |
| Theme.SanitizeHexColorSpec | app/utils/theme.py:15-23 | a missing, empty or all-whitespace value gives the fallback; a value that is a hex colour once stripped comes back stripped and lower-cased; anything else gives the fallback |
| Theme.SanitizeLowerHexColor | app/utils/theme.py:15-23 | a lower-case hex colour is returned unchanged |
| Theme.ButtonDefaultsValid | app/utils/theme.py:6-12 | every default button colour is a valid lower-case hex colour, and the keys are distinct |
| Theme.SanitizeIdempotent | app/utils/theme.py:15-23 | with a valid fallback, sanitising a sanitised value changes nothing |
| Permissions.RequireLogin | app/utils/permissions.py:4-9 | HTTP 401 iff there is no user; otherwise the user |
| Permissions.RequireAdmin | app/utils/permissions.py:11-17 | passes iff the user is a logged-in admin; 401 without a user, 403 for a non-admin |
| Permissions.CanEditTask | app/utils/permissions.py:21-40 | `can_edit_task`; stated case by case by `Permissions.CanEditTaskSpec` |
| Permissions.CanEditTaskSpec | app/utils/permissions.py:21-40 | false without a user or task; otherwise true iff the task is neither archived nor Completed, and the user is an admin, the assignee, or someone the assignee reports to |
| Permissions.UnassignedEditableOnlyByAdmin | app/utils/permissions.py:21-40 | only an admin may edit an unassigned task, and only while it is not frozen |
| Hierarchy.Rank | app/utils/hierarchy.py:12-23 | the rank strictly decreases from every manager to each of its subordinates; it is the termination measure of the walk |
| Hierarchy.Collect | app/utils/hierarchy.py:12-23 | the recursive `collect(u)`: each subordinate id followed by its own walk; its results are stated by `Hierarchy.CollectSound`, `Hierarchy.CollectComplete`, `Hierarchy.CollectNoDuplicates` and `Hierarchy.CollectPreorder` |
| Hierarchy.CollectInto | app/utils/hierarchy.py:12-23 | the imperative `collect(u)` appends to the shared `ids` list exactly the preorder walk below `u` |
| Hierarchy.SubordinateIds | app/utils/hierarchy.py:1-26 | `get_all_subordinate_ids`: empty for no user, the walk from the user otherwise; stated by `Hierarchy.SubordinateIdsReachable` and `Hierarchy.SubordinateIdsShape` |
| Hierarchy.GetAllSubordinateIds | app/utils/hierarchy.py:1-26 | `get_all_subordinate_ids` returns the empty list without a user, and the walk below the user otherwise |
| Hierarchy.SubordinatesLinked | app/models/user.py:35-39 | every `u.subordinates` entry is a user row whose `manager_id` is `u.id` |
| Hierarchy.CollectAllStep | app/utils/hierarchy.py:21-23 | visiting one more subordinate adds its id and then its whole subtree; that subordinate ranks below its manager |
| Hierarchy.CollectAllMembers | app/utils/hierarchy.py:21-23 | a partial walk holds exactly the visited subordinates' ids and everything collected below them |
| Hierarchy.CollectMembers | app/utils/hierarchy.py:12-23 | the walk from `id` holds exactly its direct subordinates and everything collected below each of them |
| Hierarchy.CollectSound | app/utils/hierarchy.py:12-23 | every collected id reports to the root of the walk, through one or more manager links |
| Hierarchy.ReportsToCons | app/models/user.py:24-27 | a subordinate, and everyone who reports to it, reports to its manager |
| Hierarchy.CollectComplete | app/utils/hierarchy.py:12-23 | every id reached from the root through manager links is collected |
| Hierarchy.SubordinateIdsReachable | app/utils/hierarchy.py:1-26 | the list is empty without a user; for a user it holds exactly the ids that report to them |
| Hierarchy.CollectRankBelow | app/utils/hierarchy.py:12-23 | every collected id ranks strictly below the root |
| Hierarchy.RootNotCollected | app/utils/hierarchy.py:1-26 | a user's own id never appears in their subordinate list |
| Hierarchy.CollectTransitive | app/utils/hierarchy.py:12-23 | whatever is collected below a collected id is collected from the root as well |
| Hierarchy.ParentInSubtree | app/models/user.py:24-27 | the manager of a collected id is the root or is collected itself |
| Hierarchy.SubtreesNested | app/models/user.py:24-27 | each user has one manager, so two subtrees that share an id are nested |
| Hierarchy.SiblingsDisjoint | app/models/user.py:24-27 | two different subordinates of one manager have disjoint subtrees |
| Hierarchy.NoDuplicatesConcat | app/utils/hierarchy.py:21-23 | joining two duplicate-free lists with no common id gives a duplicate-free list |
| Hierarchy.CollectNoDuplicates | app/utils/hierarchy.py:12-23 | with unique primary keys, the walk lists each subordinate id once |
| Hierarchy.CollectAllNoDuplicates | app/utils/hierarchy.py:21-23 | a partial walk over distinct subordinates lists each id once |
| Hierarchy.CollectPreorder | app/utils/hierarchy.py:21-23 | the walk is a preorder: each listed id's manager is the root or is listed earlier |
| Hierarchy.CollectAllPreorder | app/utils/hierarchy.py:21-23 | a partial walk is a preorder in the same sense |
| Hierarchy.SubordinateIdsShape | app/utils/hierarchy.py:1-26 | a user's subordinate list has no duplicates and is in preorder |
| Hierarchy.CanAssignTask | app/utils/hierarchy.py:29-43 | `can_assign_task`; stated by `Hierarchy.CanAssignTaskSpec` and `Hierarchy.CanAssignTaskTransitive` |
| Hierarchy.CanAssignTaskSpec | app/utils/hierarchy.py:29-43 | false without both users; otherwise true iff the assigner is an admin, is the assignee, or the assignee reports to them |
| Hierarchy.ReportsToTransitive | app/utils/hierarchy.py:12-23 | reporting through manager links is transitive |
| Hierarchy.CanAssignTaskTransitive | app/utils/hierarchy.py:29-43 | assignment rights compose: if A may assign to non-admin B and B to C, then A may assign to C |
| Hierarchy.SelfManagedIsCyclic | app/models/user.py:24-27 | a user who is their own manager makes the graph cyclic, so no walk from them terminates |
| Visibility.ApplyTaskVisibility | app/utils/task_visibility.py:6-32 | `apply_task_visibility` over the rows of a query; stated by `Visibility.ApplyTaskVisibilitySpec` and `Visibility.ApplyTaskVisibilityIsFilter` |
| Visibility.ApplyTaskVisibilityIsFilter | app/utils/task_visibility.py:6-32 | `apply_task_visibility` is a single order-preserving filter by the row-level `Visible` predicate |
| Visibility.ApplyTaskVisibilitySpec | app/utils/task_visibility.py:6-32 | without a user, or for an admin, the query is unchanged; a non-admin keeps a row iff its task is their own and not in review, or is in review and assigned to someone who reports to them |
| Visibility.NoSubordinatesOwnOnly | app/utils/task_visibility.py:25-32 | a non-admin with nobody below them gets only the own-task clause |
| Visibility.ApplyTaskVisibilityConcat | app/utils/task_visibility.py:6-32 | the filter commutes with splitting the table, and keeps only rows of the input |
| Visibility.NonAdminHiddenTasks | app/utils/task_visibility.py:20-29 | a non-admin never sees an unassigned task, nor their own task while it is in review |
| Dashboard.Joined | app/services/dashboard_service.py:38-42 | each joined row pairs a stored milestone with the stored task its `task_id` names |
| Dashboard.JoinedSpec | app/services/dashboard_service.py:38-42 | with unique task keys, the join holds exactly the pairs of a stored milestone and its stored task |
| Dashboard.MilestonesOfRows | app/services/dashboard_service.py:45-53 | projecting joined rows onto their milestones keeps the length and the order |
| Dashboard.MilestonesOfRowsSpec | app/services/dashboard_service.py:45-53 | a milestone is in the projection iff some joined row carries it |
| Dashboard.BuildDashboard | app/services/dashboard_service.py:8-70 | `build_dashboard`: the task groups and milestone groups of the board; stated by `Dashboard.TaskBucketsSpec`, `Dashboard.TaskBucketsDisjoint` and `Dashboard.MilestoneBucketsSpec` |
| Dashboard.BaseTasksSpec | app/services/dashboard_service.py:13-14 | the base task query holds exactly the stored, non-archived tasks the user may see |
| Dashboard.TaskBucketsSpec | app/services/dashboard_service.py:17-35 | membership of each task group, both ways: due today / within the next 7 days / overdue (none completed), in review, completed, each among the visible non-archived tasks |
| Dashboard.TaskBucketsDisjoint | app/services/dashboard_service.py:17-35 | the today, upcoming and overdue groups are pairwise disjoint, and so are the in-review and completed groups |
| Dashboard.MilestoneBucketsSpec | app/services/dashboard_service.py:38-53 | a milestone is in the today / upcoming / overdue group iff it is stored, its task is a visible non-archived task, and its deadline matches the group; only the overdue group leaves out completed milestones |
| Dashboard.MilestoneBucketSpec | app/services/dashboard_service.py:43-53 | a milestone is in a group chosen by a condition on the milestone iff the condition holds and its task is on the board |
| Dashboard.BaseMilestoneRowsSpec | app/services/dashboard_service.py:38-43 | a joined row is in the base milestone query iff it pairs a stored milestone with its task and that task is on the board |
| Dashboard.MyTaskCount | app/routes/dashboard.py:32-40 | the `my_tasks` count query: the user's non-archived tasks not in review, over the whole table with no visibility filter; used by `Dashboard.DashboardKpis` and `Dashboard.MyTasksAreVisible` |
| Dashboard.DashboardKpis | app/routes/dashboard.py:26-68 | the total is the sum of the today, upcoming and overdue group sizes; pending review, overdue and completed are the sizes of those groups of `build_dashboard`; `my_tasks` is the count over the whole table; in progress is `max(total - completed - pending_review - overdue, 0)`: never below the difference, and either 0 or the difference |
| Dashboard.DashboardPage | app/routes/dashboard.py:14-68 | a redirect to `/login` (303) if and only if there is no user; otherwise the rendered page with the KPIs of that user's board |
| Dashboard.TotalCountsOpenTasksDue | app/routes/dashboard.py:26-30 | the total counts each visible, non-archived, not completed task due by today + 7 exactly once |
| Dashboard.MyTasksAreVisible | app/routes/dashboard.py:32-40 | `my_tasks` never exceeds the number of visible non-archived tasks, because a user's own tasks outside review always pass the visibility filter |
| Store.Database.constructor | app/models/task.py:1-67 | a session over the given tables, each holding exactly the given rows |
| TaskService.CleanRemarks | app/services/task_service.py:85 | `s.strip() or None` is none iff the text is all whitespace; otherwise it is the stripped text, non-empty, with no whitespace at either end |
| TaskService.NewTask | app/services/task_service.py:28-38 | the row `create_task` inserts: the given fields, status To Do; `TaskService.CreateTask` appends it |
| TaskService.CreateTask | app/services/task_service.py:9-43 | appends exactly one To Do row carrying the given fields and a fresh primary key; the other rows are unchanged |
| TaskService.UpdateTask | app/services/task_service.py:49-68 | overwrites exactly title, type, priority, deadline, assignee, folder link and description of the one row; every other row and column is unchanged |
| TaskService.ArchiveTask | app/services/task_service.py:74-76 | sets only the archived flag of the one row |
| TaskService.Submitted | app/services/task_service.py:82-87 | `submit_for_review` on one row: status Submitted for Review, `submitted_at` now, remarks kept when none are given, otherwise cleaned by `TaskService.CleanRemarks`; `TaskService.SubmitForReview` stores it |
| TaskService.SubmitForReview | app/services/task_service.py:82-87 | the row becomes Submitted for Review with `submitted_at` = now; its remarks change only when remarks were passed, to the cleaned remarks |
| TaskService.Approved | app/services/task_service.py:90-92 | `approve_task` on one row: status Approved; `TaskService.ApproveTask` stores it |
| TaskService.ApproveTask | app/services/task_service.py:90-92 | only the status of the row changes, to Approved |
| TaskService.Returned | app/services/task_service.py:95-97 | `return_task` on one row: status Returned; `TaskService.ReturnTask` stores it |
| TaskService.ReturnTask | app/services/task_service.py:95-97 | only the status of the row changes, to Returned |
| TaskService.Completed | app/services/task_service.py:100-105 | `complete_task` on one row: status Completed, `completed_at` now, remarks kept when none are given, otherwise cleaned by `TaskService.CleanRemarks`; `TaskService.CompleteTask` stores it |
| TaskService.CompleteTask | app/services/task_service.py:100-105 | the row becomes Completed with `completed_at` = now, always overwritten; its remarks change only when remarks were passed |
| TaskService.SubmitEnablesReview | app/utils/workflow.py:4-14 | after a permitted submission the assignee can no longer submit, and an admin, the assignee, or anyone the assignee reports to can review |
| TaskService.ReturnAllowsResubmission | app/utils/workflow.py:4-14 | a task returned after a permitted review can be submitted again by its assignee and is no longer reviewable |
| TaskService.ApprovalAllowsCompletion | app/utils/workflow.py:4-18 | an approved task can be completed by anyone, and can no longer be reviewed or submitted |
| TaskService.CompletedIsFinal | app/utils/permissions.py:25-26 | a completed task cannot be submitted, reviewed or edited by anyone, and only an admin may complete it again |
| MilestoneService.TaskMilestones | app/models/task.py:61-65 | `task.milestones`: the task's milestone rows ordered by `sequence`; the milestone rows a report lays out under each task (`ReportService.RowsOfTaskSpec`) |
| MilestoneService.AddMilestone | app/services/milestone_service.py:6-30 | appends exactly one Pending milestone for the task, with a fresh primary key and sequence number `len(task.milestones) + 1` unless one is given |
| MilestoneService.AddMilestoneAppends | app/services/milestone_service.py:15-24 | the new milestone becomes the last of its task's milestones; it is Pending; without a given number, its number is the task's new milestone count |
| MilestoneService.AutoCompleted | app/services/milestone_service.py:44-51 | `_auto_complete_task_if_needed` on one task; stated by `MilestoneService.AutoCompletedSpec` and `MilestoneService.AutoCompletedIdempotent` |
| MilestoneService.AutoCompletedSpec | app/services/milestone_service.py:44-51 | only status and completion time change; the status stays or becomes Completed, and ends Completed iff it was, or the task has milestones that are all Completed; an existing completion time is kept; a task without milestones is untouched |
| MilestoneService.AutoCompletedIdempotent | app/services/milestone_service.py:44-51 | running auto-completion again, at any later time, changes nothing |
| MilestoneService.AutoCompleteTaskIfNeeded | app/services/milestone_service.py:44-51 | the task row becomes its auto-completed version; nothing else changes |
| MilestoneService.SetMilestoneStatus | app/services/milestone_service.py:33-51 | the tables after `update_milestone_status`; the method `MilestoneService.UpdateMilestoneStatus` is proved against it and `MilestoneService.SetMilestoneStatusTwice` relates two calls |
| MilestoneService.UpdateMilestoneStatus | app/services/milestone_service.py:33-41 | sets the milestone's status, then auto-completes its parent task from the updated milestones |
| MilestoneService.SetMilestoneStatusTwice | app/services/milestone_service.py:33-51 | setting the same status twice leaves both tables as the first call left them |
| MilestoneService.UpdateMilestone | app/services/milestone_service.py:52-55 | changes only title and deadline of the one milestone row |
| MilestoneService.DeleteMilestone | app/services/milestone_service.py:58-60 | removes the one row; every other row, sequence number included, stays as it was |
| MilestoneService.DeleteMilestoneSpec | app/services/milestone_service.py:58-60 | deletion removes exactly one row (multiset), and every remaining row was there before |
| MilestoneService.DeleteThenAddRepeatsSequence | app/services/milestone_service.py:15-16 | since deletion does not renumber, deleting the first of two milestones and then adding one gives two milestones numbered 2 |
| MilestoneService.FindSwap | app/services/milestone_service.py:73-80 | `.first()` of the milestones of the same task with the target number: the first such row, or none when no row matches |
| MilestoneService.Moved | app/services/milestone_service.py:63-86 | the milestone table after `move_milestone`; stated by `MilestoneService.MovedSpec`, `MilestoneService.MovedKeepsSequences` and `MilestoneService.MoveUpThenDown` |
| MilestoneService.MoveMilestone | app/services/milestone_service.py:63-86 | the table becomes `Moved`: the result of swapping the sequence numbers |
| MilestoneService.MovedSpec | app/services/milestone_service.py:63-86 | an unknown direction, or no neighbour one step away, changes nothing; otherwise exactly the two rows of the same task swap sequence numbers and every other row is unchanged |
| MilestoneService.CountSequenceUpdate | app/services/milestone_service.py:85 | replacing one row replaces its contribution to a sequence-number count |
| MilestoneService.MovedKeepsSequences | app/services/milestone_service.py:63-86 | reordering only permutes sequence numbers: for every task and number, the count of milestones carrying it is unchanged |
| MilestoneService.MoveUpThenDown | app/services/milestone_service.py:63-86 | with distinct sequence numbers, moving a milestone up and then down restores the table |
| MilestoneService.TwoMilestonesCompleteTheTask | test.py:8-21 | in the repository's own scenario the milestones are numbered 1 and 2; completing the first leaves the task To Do, and completing the second completes it at that moment |
| TaskPages.ParseDate | app/routes/task_pages.py:35-41 | nothing for a missing or empty string; otherwise exactly the parsed ISO date, or nothing when it does not parse |
| TaskPages.ListedTasks | app/routes/task_pages.py:67-102 | the list `task_list` renders: the visible, filtered tasks by ascending deadline; stated by `TaskPages.ListedTasksSpec` |
| TaskPages.ListedTasksSpec | app/routes/task_pages.py:67-102 | the list holds exactly the stored tasks that pass every narrowing, never more copies than the table, and sorted by deadline ascending |
| TaskPages.StagedStep | app/routes/task_pages.py:67-100 | filtering the query by narrowing `k` is the query after `k + 1` narrowings |
| TaskPages.StagedSkip | app/routes/task_pages.py:84-100 | a narrowing every task passes, such as a filter that was not given, leaves the query unchanged |
| TaskPages.StagedUpTo | app/routes/task_pages.py:67-100 | the first `k` narrowings equal one filter by their conjunction |
| TaskPages.StagedUpToStep | app/routes/task_pages.py:67-100 | adding one narrowing to the conjunction of the earlier ones gives the conjunction of all of them |
| TaskPages.StagedListed | app/routes/task_pages.py:67-100 | all nine narrowings together are the list's condition: not archived, visible, inside the quick filter's window, and matching every given form filter |
| TaskPages.NarrowBy | app/routes/task_pages.py:72-100 | `q = q.filter(f)` advances the query by exactly one narrowing |
| TaskPages.FilterByFields | app/routes/task_pages.py:84-94 | the status, priority, type and assignee filters, each applied only when given, advance the query by those four narrowings |
| TaskPages.FilterByDeadlineRange | app/routes/task_pages.py:96-100 | the parsed date bounds, each applied only when it parsed, advance the query by the last two narrowings |
| TaskPages.TaskList | app/routes/task_pages.py:48-120 | without a user, a redirect to `/login` (303) and no tasks; otherwise the page with exactly the listed tasks in deadline order |
| TaskPages.AssignableUsers | app/routes/task_pages.py:146-159 | the `assignable_users` of the task forms; stated by `TaskPages.AssignableUsersSpec` |
| TaskPages.AssignableUsersSpec | app/routes/task_pages.py:146-159 | the forms offer exactly the active users who are the user themselves or report to them (everyone active, for an admin), that is the active users `can_assign_task` allows |
| TaskPages.Seeded | app/routes/task_pages.py:215-228 | the milestone rows the seeding loop adds; stated by `TaskPages.SeededSound`, `TaskPages.SeededComplete` and `TaskPages.SeededFreshIds` |
| TaskPages.SeededSound | app/routes/task_pages.py:215-228 | every seeded milestone belongs to the new task, is Pending, and takes its title and parsed deadline from the form pair at position `sequence`; numbers rise strictly and stay within the shorter list |
| TaskPages.SeededComplete | app/routes/task_pages.py:215-228 | every pair with a title and a parseable deadline is seeded, numbered by its 1-based position, so skipped pairs leave gaps |
| TaskPages.SeededFreshIds | app/routes/task_pages.py:221-228 | seeded rows get primary keys that no existing row has and that differ from each other |
| TaskPages.AssigneeRefused | app/routes/task_pages.py:194-200 | whether `create_task_submit` refuses the assignee; stated by `TaskPages.AssigneeRefusedSpec` |
| TaskPages.AssigneeRefusedSpec | app/routes/task_pages.py:194-200 | the assignee is refused iff an id was given and no stored user with that id may be assigned work by the user |
| TaskPages.CreateTaskSubmit | app/routes/task_pages.py:175-232 | no user: redirect to `/login` (303); an assignee field `int()` cannot read: HTTP 500 with no change; a refused assignee: 403 with no change; otherwise one new To Do task and exactly the seeded milestones are appended, then a redirect to `/ui/tasks` (303) |
| TaskPages.IntField | app/routes/task_pages.py:194 | nothing exactly for a missing or empty field; an error (HTTP 500) exactly when the text is not a number; otherwise the number `int()` reads |
| TaskPages.TaskPage | app/routes/task_pages.py:285 | the redirect to `/ui/tasks/<id>` with status 303 |
| TaskPages.TaskPageInjective | app/routes/task_pages.py:285 | different tasks get different detail-page redirects |
| TaskPages.SubmitRoute | app/routes/task_pages.py:273-285 | a missing task or a refused guard gives 403 and no change; without a user the guard raises (HTTP 500) and nothing changes; otherwise exactly that row is submitted and the route redirects to its page |
| TaskPages.ApproveRoute | app/routes/task_pages.py:288-295 | 403 and no change unless the task exists and the review guard holds; otherwise exactly that row becomes Approved and the route redirects to its page |
| TaskPages.ReturnRoute | app/routes/task_pages.py:298-305 | 403 and no change unless the task exists and the review guard holds; otherwise exactly that row becomes Returned and the route redirects to its page |
| TaskPages.CompleteRoute | app/routes/task_pages.py:308-320 | a missing task or a refused guard gives 403 and no change; without a user the guard raises (HTTP 500); otherwise exactly that row is completed and the route redirects to its page |
| TaskPages.EditTaskSubmit | app/routes/task_pages.py:405-436 | 403 and no change unless the task exists and the user may edit it; then an assignee field `int()` cannot read is HTTP 500 with no change; otherwise exactly the seven form fields of that row are overwritten and the route redirects to its page |
| UserPages.UserList | app/routes/user_pages.py:14-29 | the user rows are shown iff the visitor is an admin, and then all of them, each once |
| UserPages.CreateUserForm | app/routes/user_pages.py:32-52 | the privileges and the candidate managers (every user) are shown iff the visitor is an admin |
| UserPages.ChosenPrivileges | app/routes/user_pages.py:77-82 | the new user gets exactly the stored privileges whose ids were ticked |
| UserPages.UsernameTaken | app/models/user.py:12 | the unique username index; `UserPages.CreateUserSubmit` answers 500 with no change exactly when it holds |
| UserPages.NewUser | app/routes/user_pages.py:69-82 | the new row carries the username, the hashed password, the role, the department, the unvalidated manager id and exactly the ticked privileges; it is active |
| UserPages.CreateUserSubmit | app/routes/user_pages.py:55-87 | a non-admin is sent to the dashboard with no change; a taken username fails the insert (HTTP 500) with no change; otherwise exactly the new user is appended with a fresh id, and the route returns to the list |
| UserPages.AddUserKeepsAcyclic | app/routes/user_pages.py:69-75 | adding a user keeps the manager graph acyclic, as long as nobody names the new id as manager and the user is not their own manager |
| UserPages.NextIdFresh | app/routes/user_pages.py:84-85 | the id given to the new user is no existing user's id |
| UserPages.ManagerField | app/routes/user_pages.py:107 | `manager_id or None`: an absent value and 0 both clear the manager; any other value is kept |
| UserPages.ManagerSet | app/routes/user_pages.py:100-107 | as written: an unknown target, or a user named as their own manager, changes nothing; otherwise the target's manager becomes `manager_id or None` with no further check, and every other row and every other column of the target stay as they were |
| UserPages.ManagerSetCanCloseCycle | app/routes/user_pages.py:104-107 | as written, naming a user's subordinate as their manager turns an acyclic graph into a cyclic one |
| UserPages.ManagerSetChecked | app/routes/user_pages.py:100-107 | the corrected update: a manager from inside the target's subtree, the target included, is refused with no change; otherwise it behaves as written |
| UserPages.ManagerSetCheckedKeepsAcyclic | app/routes/user_pages.py:100-107 | with the subtree check, changing a manager always keeps the manager graph acyclic |
| UserPages.UpdateUserManager | app/routes/user_pages.py:90-110 | a non-admin is sent to the dashboard with no change; every other request returns to the user list, with the table updated as written (`ManagerSet`), on any table, cyclic or not |
| UserPages.UpdateUserManagerChecked | app/routes/user_pages.py:90-110 | the corrected route: the same answers, with the table updated by the subtree check (`ManagerSetChecked`); the graph stays acyclic |
| UserPages.ManagerSetCheckedSpec | app/routes/user_pages.py:100-107 | only the target row's manager can change: every other row, and every other column of the target, stays as it was |
| AdminPages.FirstSetting | app/routes/admin_pages.py:84-88 | `.filter(key == k).first()`: the first row with the key, or none when no row has it |
| AdminPages.MappedValue | app/routes/admin_pages.py:49-51 | `button_map.get(key)`: when it finds a value, that value is stored on a row with the key; otherwise no row with the key holds one |
| AdminPages.MappedValueFirst | app/routes/admin_pages.py:38-51 | with unique keys the dictionary finds nothing when `.first()` finds no row, and otherwise the value of the row `.first()` finds |
| AdminPages.CurrentTheme | app/routes/admin_pages.py:38-43 | the theme shown is the stored one when that is one of `THEMES`, and "classic" when no theme is stored or the stored one is unknown; it is always one of `THEMES` |
| AdminPages.StoredTheme | app/routes/admin_pages.py:38-42 | `.first()` of the `ui_theme` rows: a value found is stored on a `ui_theme` row, and nothing is found when there is no such row |
| AdminPages.ButtonColors | app/routes/admin_pages.py:44-53 | one entry per default, keyed in the defaults' order, each the default or a lower-case hex colour |
| AdminPages.ButtonColorsSpec | app/routes/admin_pages.py:44-53 | for any stored settings, each button shows its default when no row or no value is stored for it or the stored value is not a hex colour once trimmed, and otherwise the trimmed stored value lower-cased |
| AdminPages.ThemeSettingsForm | app/routes/admin_pages.py:29-64 | the form is shown if and only if the visitor is an admin, and then shows the current theme (`CurrentTheme`) and the sanitised button colours (`ButtonColors`) of the stored settings |
| AdminPages.Upsert | app/routes/admin_pages.py:84-93 | the look-up-then-update-or-add step `theme_settings_submit` applies to each key it stores; stated by `AdminPages.UpsertSpec`, `AdminPages.UpsertStores` and `AdminPages.UpsertOtherRow` |
| AdminPages.UpsertShape | app/routes/admin_pages.py:84-93 | an upsert keeps every row's key in place and changes no row with another key; it keeps the length when a row had the key, and otherwise appends one row with the key |
| AdminPages.UpsertStores | app/routes/admin_pages.py:84-93 | after an upsert the keys are still unique and `.first()` finds the key on a row holding the new value |
| AdminPages.FirstSettingSameKeys | app/routes/admin_pages.py:84-88 | `.first()` gives the same row in two tables with the same keys, where the longer one only adds other keys |
| AdminPages.UpsertOtherRow | app/routes/admin_pages.py:84-93 | upserting one key moves neither the row of another key nor its contents |
| AdminPages.UpsertSpec | app/routes/admin_pages.py:84-93 | after an upsert the key reads back the new value, every other key reads back its old value, and keys stay unique |
| AdminPages.SubmittedColors | app/routes/admin_pages.py:95-104 | one sanitised colour per button key, in the defaults' order |
| AdminPages.ThemeSettingsSubmit | app/routes/admin_pages.py:67-116 | a non-admin goes to the dashboard and an unknown theme back to the form, with no change; otherwise the theme and then the five sanitised colours are upserted, in the defaults' order |
| AdminPages.ButtonKeysDistinct | app/utils/theme.py:6-12 | the five button keys are distinct from each other and from the theme key |
| AdminPages.ButtonKeyFresh | app/routes/admin_pages.py:103 | each button key differs from the theme key and from the keys before it |
| AdminPages.ColorsAppliedSpec | app/routes/admin_pages.py:103-113 | after the first `n` colours are applied, keys are unique, the theme is as before, and each of those `n` keys reads back its value |
| AdminPages.ColorStep | app/routes/admin_pages.py:103-113 | one more iteration of the colour loop stores its colour and keeps the earlier ones and the theme |
| AdminPages.ColorsAppliedOther | app/routes/admin_pages.py:103-113 | the colour loop leaves the value of every key other than the five button keys unchanged |
| AdminPages.SubmittedSettings | app/routes/admin_pages.py:84-113 | the settings table after a valid submission; stated by `AdminPages.SubmittedReadBack`, `AdminPages.SubmittedOtherKeys` and `AdminPages.SubmitThenForm` |
| AdminPages.SubmittedOtherKeys | app/routes/admin_pages.py:84-113 | a valid submission changes the value of no key besides the theme and the five button colours |
| AdminPages.SubmitThenForm | app/routes/admin_pages.py:29-116 | after a valid submission the form shows exactly the submitted theme and the sanitised submitted colours |
| AdminPages.SubmittedReadBack | app/routes/admin_pages.py:84-113 | after a valid submission keys are unique, the stored theme is the submitted one, and each button key holds its sanitised submitted colour |
| AdminPages.ButtonsReadBack | app/routes/admin_pages.py:49-53 | stored sanitised colours are shown on the form unchanged |
| ReportService.ParseColumn | app/services/report_service.py:38-53 | a key parses to the column it names; a key naming no column parses to nothing |
| ReportService.ParseKey | app/services/report_service.py:38-53 | every column's own key parses back to that column |
| ReportService.ParseColumns | app/services/report_service.py:53 | the keys parse if and only if every key names a column, and then to one column per key, in order; otherwise the error is a 500, as the `column_labels[c]` lookup fails |
| ReportService.ChosenColumns | app/services/report_service.py:50-53 | no keys select all ten columns; otherwise the keys parse if and only if each names a column, and then to one column per key, in order, with a 500 otherwise |
| ReportService.Label | app/services/report_service.py:38-49 | `column_labels[key]` of each generator: the Excel table (app/services/report_service.py:38-49) for `Excel`, the PDF table (app/services/report_service.py:204-215) for `Pdf`; the two differ for five keys (`id`, `title`, `deadline`, `milestone_status`, `milestone_deadline`); used by `ReportService.Header` |
| ReportService.Header | app/services/report_service.py:53 | one label per chosen column, in order |
| ReportService.ApplyFilters | app/services/report_service.py:15-22 | `_apply_filters`: deadline range and status, each only when given; stated by `ReportService.ApplyFiltersSpec` |
| ReportService.ApplyFiltersSpec | app/services/report_service.py:15-22 | a task passes if and only if its deadline is within each given bound and its status is the given one; the result is a sub-multiset of the input |
| ReportService.ReportTasks | app/services/report_service.py:55-58 | the tasks of a report: the non-archived rows, then `_apply_filters`; stated by `ReportService.ReportTasksSpec` |
| ReportService.ReportTasksSpec | app/services/report_service.py:55-58 | a task is in a report if and only if it is a non-archived row whose deadline lies in the given range and whose status is the given one |
| ReportService.ReportQuickTasks | app/services/report_service.py:60-68 | the quick tasks of a report: none for a status other than Completed, otherwise those completed within the range; stated by `ReportService.ReportQuickTasksSpec` |
| ReportService.ReportQuickTasksSpec | app/services/report_service.py:60-68 | no quick tasks when a status other than Completed is asked for; otherwise exactly those completed within each given bound |
| ReportService.TaskValue | app/services/report_service.py:73-86 | a task's milestone cells are blank when it expands and "-" otherwise |
| ReportService.MilestoneValue | app/services/report_service.py:88-101 | a milestone row's task cells are blank |
| ReportService.TaskRow | app/services/report_service.py:86 | one cell per chosen column: the task's value under that column |
| ReportService.MilestoneRow | app/services/report_service.py:101 | one cell per chosen column: the milestone's value under that column |
| ReportService.QuickRow | app/services/report_service.py:111-124 | one cell per chosen column: the quick task's value under that column |
| ReportService.QuickRowSpec | app/services/report_service.py:111-124 | a quick task shows as `Q-<id>`, Completed, priority Normal, its completion day as the deadline, and "-" in the folder and milestone cells |
| ReportService.ReportTable | app/services/report_service.py:26-129 | the table a generator lays out, header first; stated by `ReportService.ReportWidth` and `ReportService.GenerateReport` |
| ReportService.GenerateReport | app/services/report_service.py:26-129 | the header, the task loop and the quick-task loop build exactly the report table, with the PDF's placeholder row when nothing was found |
| ReportService.TaskRowsLoop | app/services/report_service.py:103-109 | the loop over the tasks appends exactly each task's rows, in order |
| ReportService.RowsOfTasksSnoc | app/services/report_service.py:103-109 | one more task's rows follow those of the tasks before it |
| ReportService.MilestoneRowsLoop | app/services/report_service.py:106-107 | the inner loop appends one row per milestone, in order |
| ReportService.QuickRowsLoop | app/services/report_service.py:111-124 | the loop over quick tasks appends one row per quick task, in order |
| ReportService.MilestoneRowsSpec | app/services/report_service.py:106-107 | row `k` of a task's milestone rows is the row of its milestone `k` |
| ReportService.RowsOfTaskSpec | app/services/report_service.py:103-109 | a task expands if and only if it has milestones and a milestone column is chosen; it then gives a row with blank milestone cells followed by its milestones' rows, otherwise one row with "-" in the milestone cells |
| ReportService.RowsOfTaskWidth | app/services/report_service.py:103-109 | each of a task's rows has one cell per column; a task gives at least one row, and exactly one without milestone columns |
| ReportService.RowsOfTasksWidth | app/services/report_service.py:103-109 | every task row has one cell per column; there are at least as many rows as tasks, and exactly as many without milestone columns |
| ReportService.RowsOfQuickTasksSpec | app/services/report_service.py:111-124 | exactly one row per quick task, row `k` being quick task `k`'s |
| ReportService.DefaultColumns | app/services/report_service.py:38-53 | without columns all ten are used in `column_labels` order, one of them a milestone column, and the Excel header is the ten labels |
| ReportService.BodyWidth | app/services/report_service.py:53-124 | the header, task and quick-task rows all have one cell per chosen column |
| ReportService.ReportWidth | app/services/report_service.py:204-281 | a report fails exactly when a requested key names no column; every other row is as wide as the header except the PDF's nine-cell placeholder, one cell short of the default ten-column header |
| ReportService.GetFilteredTasks | app/services/report_service.py:319-340 | `get_filtered_tasks`: the filtered query ordered by deadline; stated by `ReportService.GetFilteredTasksSpec` |
| ReportService.FilteredTasksSpec | app/services/report_service.py:319-338 | the query keeps exactly the non-archived tasks passing every present filter |
| ReportService.GetFilteredTasksSpec | app/services/report_service.py:319-340 | the result holds exactly the non-archived tasks passing every present filter, sorted by deadline ascending |
| ReportPages.ParseReportDate | app/routes/report_pages.py:30-39 | a missing or blank value is no bound; otherwise the stripped value's ISO date, or an HTTP 400 exactly when it is not one |
| ReportPages.ItemStatus | app/routes/report_pages.py:114 | a quick task's line shows status Completed |
| ReportPages.ItemPriority | app/routes/report_pages.py:115 | a quick task's line shows priority Normal |
| ReportPages.ItemUrl | app/routes/report_pages.py:104-124 | the link of a report line: a task line to its task page, a quick-task line to the quick-task list |
| ReportPages.ItemUrlsDistinguishTasks | app/routes/report_pages.py:104-124 | a task line never links to the quick-task list, and two task lines share a link only when they show the same task id |
| ReportPages.QuickExcluded | app/routes/report_pages.py:91-93 | quick tasks are left out when a status other than Completed, a priority or a task type is asked for; used by `ReportPages.ListedQuickTasks` |
| ReportPages.ListedQuickTasks | app/routes/report_pages.py:90-100 | the quick tasks listed are exactly those in the table when no status other than Completed, no priority and no type is asked for, and that were completed within each given bound by the given creator |
| ReportPages.TaskItems | app/routes/report_pages.py:104-107 | one line per task, line `i` being task `i` |
| ReportPages.QuickItems | app/routes/report_pages.py:109-124 | one line per quick task, line `i` being quick task `i` |
| ReportPages.TaskItemsLoop | app/routes/report_pages.py:104-107 | the loop appends exactly the task lines, in order |
| ReportPages.QuickItemsLoop | app/routes/report_pages.py:109-124 | the loop appends exactly the quick-task lines, in order |
| ReportPages.MergedItems | app/routes/report_pages.py:102-124 | the merged list holds a task's line if and only if the task is listed, and a quick task's line if and only if the quick task is |
| ReportPages.ReportItems | app/routes/report_pages.py:66-126 | `report_items` before paging: the filtered tasks, then the listed quick tasks, sorted stably by date; stated by `ReportPages.ReportItemsSpec` |
| ReportPages.ReportItemsSpec | app/routes/report_pages.py:66-126 | the report holds a task if and only if it is non-archived and passes every present filter, a quick task if and only if it is admitted, one line per row, sorted by date ascending |
| ReportPages.SliceIndex | app/routes/report_pages.py:133 | a Python slice bound is clamped into `0 .. n`, a bound already inside being kept |
| ReportPages.PySlice | app/routes/report_pages.py:133 | a slice is never longer than the list |
| ReportPages.TotalPages | app/routes/report_pages.py:131-132 | at least one page; for a non-empty report, the least page count whose pages hold every item |
| ReportPages.PageOf | app/routes/report_pages.py:133 | `report_items[offset:offset + PER_PAGE]`; stated by `ReportPages.PageOfSpec`, `ReportPages.PagesCover` and `ReportPages.PageBelowOne` |
| ReportPages.PageOfSpec | app/routes/report_pages.py:63-133 | page `p >= 1` is the run of at most ten items starting at `(p - 1) * 10`, and is not empty when `p` is within the page count of a non-empty report |
| ReportPages.PagesCover | app/routes/report_pages.py:131-133 | pages 1 to `total_pages`, one after another, are the whole report |
| ReportPages.FirstPagesPrefix | app/routes/report_pages.py:133 | pages 1 to `k` together are the report's first `10 * k` items |
| ReportPages.PageBelowOne | app/routes/report_pages.py:63-133 | page 0 is empty, and page -1 is the ten items before the last ten |
| ReportPages.ListColumns | app/routes/report_pages.py:128-129 | no columns select the ten default keys, which are the ten column keys in order; given columns are kept |
| ReportPages.ReportList | app/routes/report_pages.py:42-158 | a signed-out visitor gets the login page; otherwise the page's slice of all report items, their count, the page count, the columns and the page number |
| ReportPages.ExportReport | app/routes/report_pages.py:161-216 | a signed-out visitor is sent to login; a malformed bound is HTTP 400; otherwise the report table for the parsed bounds, or HTTP 500 for an unknown column key |

## Left out

- Rendering: templates, `TemplateResponse` contexts beyond the values named above, the openpyxl workbook and the reportlab document (styles, fonts, column widths, the logo looked up on disk, the file bytes) and the download headers.
- I/O and environment: the clock (`datetime.utcnow`, `date.today`, `datetime.now`) is a parameter; `date.fromisoformat` is the parameter `fromIso`; `int()` on a form field is the parameter `toInt`, which gives nothing where Python raises `ValueError`; `hash_password` is the parameter `hash`. Their own behaviour is not modelled.
- Transactions and concurrent requests: each route or service call is one sequential step, and `db.commit()` only makes the step's writes visible. A failed commit is modelled only for the unique username index.
- Foreign keys are not enforced by the model: a task may name an assignee or type that does not exist, and a user may name a missing manager.
- Application start-up, sessions and sign-in, configuration, migrations and seeding (`app/main.py`, `app/routes/auth.py`, `app/services/auth_service.py`, `app/dependencies.py`, `app/config.py`) are not part of this model; the signed-in user is a parameter.
- The other route modules (`app/routes/reports.py`, `pages.py`, `tasks.py`, `milestones.py`, `quick_tasks.py`, `task_type_pages.py`, `root.py`) are not part of this model. They duplicate the modelled filters or wrap create/read/update/delete calls.
- The thin milestone routes of `app/routes/task_pages.py` (326-352 and 444-486) are not modelled separately. They look a row up and call the milestone service, which is modelled. They check neither sign-in nor permission.
- The `task_detail` view and the create/edit form views are modelled only as far as the set of assignable users they compute.
- `test.py` calls `create_task` with a `task_type` argument the service does not accept, so the script fails as written. Only its scenario is modelled, as `MilestoneService.TwoMilestonesCompleteTheTask`.
- Dates are never null: the table mappings declare `final_deadline`, `deadline` and `completed_on` non-null. The `or date.min` fallback of the report sort and the "-" the PDF prints for a missing date are therefore not modelled.
- Python's integers are unbounded, as Dafny's are, so no integer width is modelled.
- ReportPages.ReportList: the route compares the raw `from_date` / `to_date` query strings with date columns inside SQL. The model takes them as already-parsed dates, so malformed strings are not modelled.
- ReportPages.ReportItemsSpec: the sort is stable in the source, but only sortedness and membership are stated. The order of items with equal dates is not stated. The same holds for `ReportService.GetFilteredTasksSpec` and `TaskPages.ListedTasksSpec`.
- ReportPages.ItemUrl: the `is_quick` and `url` annotations that `report_list` adds to each item are modelled as the function `ItemUrl`. Its only stated property is `ReportPages.ItemUrlsDistinguishTasks`; `is_quick` is the constructor of the item.
- ReportPages.TotalPages: `ceil(total / PER_PAGE)` is computed with integer division instead of a float division. The two agree for every count below 2^53, where Python's float division starts to round; that covers every list the route can build.
- UserPages.UserList: `order_by(User.username)` is not modelled, because string collation is not part of the model. The contract states that every row is shown exactly once, as a multiset.
- UserPages.CreateUserForm: `order_by(Privilege.code)` is not modelled, for the same reason. The privileges are stated as a multiset.
- UserPages.NewUser: `manager_id` is stored without validation, as in the source. Nothing checks that the manager exists or that the new user does not close a cycle.
- Hierarchy walks require `Hierarchy.Acyclic` of the whole table, which is stronger than the source needs. In the source only a walk that starts at a user on a manager cycle diverges (app/utils/hierarchy.py:12-25, Python raises `RecursionError`); walks from other users, and requests by admins or self-assignments that never walk (app/utils/hierarchy.py:37-41, app/utils/task_visibility.py:15-16), still answer on a cyclic table. The model does not describe that failure or those answers. It shows only that a cycle breaks the precondition (`Hierarchy.SelfManagedIsCyclic`, `UserPages.ManagerSetCanCloseCycle`).

## Findings

| source | as written | input that shows it | evidently intended | confidence | as-written member | corrected member |
|---|---|---|---|---|---|---|
| app/routes/user_pages.py:104-107 | `update_user_manager` refuses only a user named as their own manager, then stores any other manager id | users 1 (no manager) and 2 (manager 1); an admin sets user 1's manager to 2, giving the cycle 1 → 2 → 1, after which `get_all_subordinate_ids` on either user never terminates | refuse any manager taken from the target's own subtree, so that the manager graph stays acyclic | not executed | UserPages.ManagerSetCanCloseCycle | UserPages.ManagerSetCheckedKeepsAcyclic |
