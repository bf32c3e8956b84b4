/** Milestones of a task (`app/services/milestone_service.py`): appending,
    status changes that may complete the parent task, editing, deletion and
    reordering by swapping sequence numbers. */
module MilestoneService {
  import opened Basics
  import opened Entities
  import opened Seqs
  import opened Store

  /** The milestone rows of the task with primary key `taskId`, in table order. */
  function MilestonesOf(ms: seq<Milestone>, taskId: int): seq<Milestone> {
    Filter(ms, (m: Milestone) => m.taskId == taskId)
  }

  /** `task.milestones`: the relationship is ordered by sequence number. */
  function TaskMilestones(ms: seq<Milestone>, taskId: int): seq<Milestone> {
    SortBy(MilestonesOf(ms, taskId), (m: Milestone) => m.sequence)
  }

  /** The row `add_milestone` inserts: status Pending, and sequence number
      `len(task.milestones) + 1` unless one is given. */
  function NewMilestone(id: nat, taskId: int, title: string, deadline: Date, description: Option<string>,
                        sequence: Option<int>, ms: seq<Milestone>, now: Timestamp): Milestone
  {
    var seqNo := if sequence.None? then |MilestonesOf(ms, taskId)| + 1 else sequence.value;
    Milestone(id, taskId, title, description, deadline, PENDING, seqNo, now)
  }

  /** `add_milestone` for the task in row `ti`. */
  method AddMilestone(db: Database, ti: nat, title: string, deadline: Date, description: Option<string>,
                      sequence: Option<int>, now: Timestamp) returns (m: Milestone)
    requires ti < |db.tasks|
    modifies db`milestones
    ensures m == NewMilestone(NextId(old(db.milestones), (x: Milestone) => x.id), db.tasks[ti].id,
                              title, deadline, description, sequence, old(db.milestones), now)
    ensures forall x :: x in old(db.milestones) ==> x.id != m.id
    ensures db.milestones == old(db.milestones) + [m]
  {
    var seqNo: int;
    if sequence.None? {
      seqNo := |MilestonesOf(db.milestones, db.tasks[ti].id)| + 1;
    } else {
      seqNo := sequence.value;
    }
    var id := NextId(db.milestones, (x: Milestone) => x.id);
    m := Milestone(id, db.tasks[ti].id, title, description, deadline, PENDING, seqNo, now);
    db.milestones := db.milestones + [m];
  }

  /** The new milestone becomes the last of its task's milestones; with no
      sequence given, its number is the task's new milestone count. */
  lemma AddMilestoneAppends(ms: seq<Milestone>, m: Milestone, sequence: Option<int>, id: nat, title: string,
                            deadline: Date, description: Option<string>, taskId: int, now: Timestamp)
    requires m == NewMilestone(id, taskId, title, deadline, description, sequence, ms, now)
    ensures MilestonesOf(ms + [m], taskId) == MilestonesOf(ms, taskId) + [m]
    ensures m.status == PENDING
    ensures sequence.None? ==> m.sequence == |MilestonesOf(ms + [m], taskId)|
    ensures sequence.Some? ==> m.sequence == sequence.value
  {
    FilterConcat(ms, [m], (x: Milestone) => x.taskId == taskId);
  }

  /** `all(m.status == "Completed" for m in milestones)`. */
  predicate AllCompleted(ms: seq<Milestone>) {
    forall m :: m in ms ==> m.status == COMPLETED
  }

  /** `_auto_complete_task_if_needed` on task `t` whose milestones are `ms`. */
  function AutoCompleted(t: Task, ms: seq<Milestone>, now: Timestamp): Task {
    if ms == [] then t
    else if AllCompleted(ms) then
      t.(status := COMPLETED, completedAt := if t.completedAt.Some? then t.completedAt else Some(now))
    else t
  }

  /** Auto-completion touches only status and completion time, never moves a
      task away from Completed, keeps an existing completion time, and
      completes the task exactly when it has milestones and all are Completed
      (or it was completed already); archived and current status are not consulted. */
  lemma AutoCompletedSpec(t: Task, ms: seq<Milestone>, now: Timestamp)
    ensures var r := AutoCompleted(t, ms, now);
      && r == t.(status := r.status, completedAt := r.completedAt)
      && (r.status == t.status || r.status == COMPLETED)
      && (r.status == COMPLETED <==> t.status == COMPLETED || (ms != [] && AllCompleted(ms)))
      && (t.completedAt.Some? ==> r.completedAt == t.completedAt)
      && (r.status == COMPLETED && t.status != COMPLETED ==> r.completedAt.Some?)
      && (ms == [] ==> r == t)
  {
  }

  /** Running auto-completion again, at any later time, changes nothing. */
  lemma AutoCompletedIdempotent(t: Task, ms: seq<Milestone>, now: Timestamp, later: Timestamp)
    ensures AutoCompleted(AutoCompleted(t, ms, now), ms, later) == AutoCompleted(t, ms, now)
  {
  }

  /** `_auto_complete_task_if_needed` on the task in row `ti`. */
  method AutoCompleteTaskIfNeeded(db: Database, ti: nat, now: Timestamp)
    requires ti < |db.tasks|
    modifies db`tasks
    ensures db.tasks == old(db.tasks)[ti := AutoCompleted(old(db.tasks[ti]), MilestonesOf(db.milestones, old(db.tasks[ti]).id), now)]
  {
    var ms := MilestonesOf(db.milestones, db.tasks[ti].id);
    if ms == [] {
      return;
    }
    if AllCompleted(ms) {
      var t := db.tasks[ti].(status := COMPLETED);
      if t.completedAt.None? {
        t := t.(completedAt := Some(now));
      }
      db.tasks := db.tasks[ti := t];
    }
  }

  /** The tables after `update_milestone_status` on milestone row `mi`: its
      status is set, then its parent task is auto-completed. */
  function SetMilestoneStatus(tasks: seq<Task>, ms: seq<Milestone>, mi: nat, newStatus: string, now: Timestamp)
    : (seq<Task>, seq<Milestone>)
    requires mi < |ms| && TaskIndex(tasks, ms[mi].taskId).Some?
  {
    var ms' := ms[mi := ms[mi].(status := newStatus)];
    var ti := TaskIndex(tasks, ms[mi].taskId).value;
    (tasks[ti := AutoCompleted(tasks[ti], MilestonesOf(ms', tasks[ti].id), now)], ms')
  }

  /** `update_milestone_status` on milestone row `mi`, whose parent task exists. */
  method UpdateMilestoneStatus(db: Database, mi: nat, newStatus: string, now: Timestamp)
    requires mi < |db.milestones| && TaskIndex(db.tasks, db.milestones[mi].taskId).Some?
    modifies db`milestones, db`tasks
    ensures (db.tasks, db.milestones) == SetMilestoneStatus(old(db.tasks), old(db.milestones), mi, newStatus, now)
  {
    db.milestones := db.milestones[mi := db.milestones[mi].(status := newStatus)];
    var ti := TaskIndex(db.tasks, db.milestones[mi].taskId).value;
    AutoCompleteTaskIfNeeded(db, ti, now);
  }

  /** Setting the same status twice leaves both tables as the first call left them. */
  lemma SetMilestoneStatusTwice(tasks: seq<Task>, ms: seq<Milestone>, mi: nat, st: string, now: Timestamp, later: Timestamp)
    requires mi < |ms| && TaskIndex(tasks, ms[mi].taskId).Some?
    ensures var (tasks1, ms1) := SetMilestoneStatus(tasks, ms, mi, st, now);
      && mi < |ms1| && TaskIndex(tasks1, ms1[mi].taskId).Some?
      && SetMilestoneStatus(tasks1, ms1, mi, st, later) == (tasks1, ms1)
  {
    var (tasks1, ms1) := SetMilestoneStatus(tasks, ms, mi, st, now);
    var ti := TaskIndex(tasks, ms[mi].taskId).value;
    var own := MilestonesOf(ms1, tasks[ti].id);
    AutoCompletedSpec(tasks[ti], own, now);
    assert tasks1[ti] == AutoCompleted(tasks[ti], own, now);
    assert tasks1[ti].id == tasks[ti].id;
    TaskIndexSameKeys(tasks, tasks1, ms[mi].taskId);
    assert ms1[mi := ms1[mi].(status := st)] == ms1;
    AutoCompletedIdempotent(tasks[ti], own, now, later);
    assert tasks1[ti := AutoCompleted(tasks1[ti], own, later)] == tasks1;
  }

  /** `update_milestone`: changes only title and deadline of row `mi`. */
  method UpdateMilestone(db: Database, mi: nat, title: string, deadline: Date)
    requires mi < |db.milestones|
    modifies db`milestones
    ensures db.milestones == old(db.milestones)[mi := old(db.milestones[mi]).(title := title, deadline := deadline)]
  {
    var m := db.milestones[mi];
    m := m.(title := title);
    m := m.(deadline := deadline);
    db.milestones := db.milestones[mi := m];
  }

  /** `delete_milestone`: removes row `mi`; the other rows, sequence numbers
      included, stay as they were. */
  method DeleteMilestone(db: Database, mi: nat)
    requires mi < |db.milestones|
    modifies db`milestones
    ensures db.milestones == old(db.milestones)[..mi] + old(db.milestones)[mi + 1..]
  {
    db.milestones := db.milestones[..mi] + db.milestones[mi + 1..];
  }

  /** Deleting removes exactly one row and leaves every other row unchanged. */
  lemma DeleteMilestoneSpec(ms: seq<Milestone>, mi: nat)
    requires mi < |ms|
    ensures var r := ms[..mi] + ms[mi + 1..];
      && multiset(r) + multiset{ms[mi]} == multiset(ms)
      && (forall m :: m in r ==> m in ms)
  {
    assert ms == ms[..mi] + [ms[mi]] + ms[mi + 1..];
  }

  /** Deletion does not renumber and the default number is the count plus one,
      so deleting the first of two milestones and then adding one without a
      number gives two milestones with number 2. */
  lemma DeleteThenAddRepeatsSequence(a: Milestone, b: Milestone, id: nat, title: string, deadline: Date, now: Timestamp)
    requires a.taskId == b.taskId && a.sequence == 1 && b.sequence == 2
    ensures var ms := [a, b][..0] + [a, b][1..];
      var m := NewMilestone(id, a.taskId, title, deadline, None, None, ms, now);
      m.sequence == 2 && m.sequence == b.sequence
  {
    var ms := [a, b][..0] + [a, b][1..];
    assert ms == [b];
    assert MilestonesOf(ms, a.taskId) == [b] + MilestonesOf([], a.taskId);
  }

  // ---------------------------------------------------------------------
  // Reordering

  /** `.filter(task_id == taskId, sequence == seqNo).first()`: the first such row. */
  function FindSwap(ms: seq<Milestone>, taskId: int, seqNo: int): (r: Option<nat>)
    ensures r.Some? ==> r.value < |ms| && ms[r.value].taskId == taskId && ms[r.value].sequence == seqNo
    ensures r.Some? ==> forall k :: 0 <= k < r.value ==> !(ms[k].taskId == taskId && ms[k].sequence == seqNo)
    ensures r.None? ==> forall k :: 0 <= k < |ms| ==> !(ms[k].taskId == taskId && ms[k].sequence == seqNo)
  {
    if ms == [] then None
    else if ms[0].taskId == taskId && ms[0].sequence == seqNo then Some(0)
    else
      var r := FindSwap(ms[1..], taskId, seqNo);
      if r.None? then None else Some(r.value + 1)
  }

  /** The milestone table after `move_milestone(row mi, direction)`. */
  function Moved(ms: seq<Milestone>, mi: nat, direction: string): seq<Milestone>
    requires mi < |ms|
  {
    if direction != "up" && direction != "down" then ms
    else
      var m := ms[mi];
      var newSeq := m.sequence + (if direction == "up" then -1 else 1);
      var j := FindSwap(ms, m.taskId, newSeq);
      if j.None? then ms
      else ms[mi := m.(sequence := ms[j.value].sequence)][j.value := ms[j.value].(sequence := m.sequence)]
  }

  /** `move_milestone` on row `mi`. */
  method MoveMilestone(db: Database, mi: nat, direction: string)
    requires mi < |db.milestones|
    modifies db`milestones
    ensures db.milestones == Moved(old(db.milestones), mi, direction)
  {
    if direction != "up" && direction != "down" {
      return;
    }
    var delta := if direction == "up" then -1 else 1;
    var newSeq := db.milestones[mi].sequence + delta;
    var swap := FindSwap(db.milestones, db.milestones[mi].taskId, newSeq);
    if swap.None? {
      return;
    }
    var j := swap.value;
    var mine, theirs := db.milestones[mi].sequence, db.milestones[j].sequence;
    db.milestones := db.milestones[mi := db.milestones[mi].(sequence := theirs)];
    db.milestones := db.milestones[j := db.milestones[j].(sequence := mine)];
  }

  /** A direction other than up or down, or no milestone of the same task one
      step away, changes nothing; otherwise exactly the two rows swap their
      sequence numbers and nothing else changes. */
  lemma MovedSpec(ms: seq<Milestone>, mi: nat, direction: string)
    requires mi < |ms|
    ensures direction != "up" && direction != "down" ==> Moved(ms, mi, direction) == ms
    ensures direction == "up" || direction == "down" ==>
      var newSeq := ms[mi].sequence + (if direction == "up" then -1 else 1);
      var j := FindSwap(ms, ms[mi].taskId, newSeq);
      var r := Moved(ms, mi, direction);
      && (j.None? ==> r == ms)
      && (j.Some? ==>
            && j.value != mi && |r| == |ms|
            && r[mi] == ms[mi].(sequence := newSeq)
            && r[j.value] == ms[j.value].(sequence := ms[mi].sequence)
            && ms[j.value].taskId == ms[mi].taskId
            && forall k :: 0 <= k < |ms| && k != mi && k != j.value ==> r[k] == ms[k])
  {
  }

  /** Whether row `m` is a milestone of task `taskId` with number `seqNo`. */
  function Hit(m: Milestone, taskId: int, seqNo: int): nat {
    if m.taskId == taskId && m.sequence == seqNo then 1 else 0
  }

  /** How many milestones of task `taskId` carry number `seqNo`. */
  function CountSequence(ms: seq<Milestone>, taskId: int, seqNo: int): nat {
    if ms == [] then 0
    else CountSequence(ms[..|ms| - 1], taskId, seqNo) + Hit(ms[|ms| - 1], taskId, seqNo)
  }

  /** Replacing one row replaces its contribution to the count. */
  lemma {:induction false} CountSequenceUpdate(ms: seq<Milestone>, i: nat, x: Milestone, taskId: int, seqNo: int)
    requires i < |ms|
    ensures CountSequence(ms[i := x], taskId, seqNo) + Hit(ms[i], taskId, seqNo)
         == CountSequence(ms, taskId, seqNo) + Hit(x, taskId, seqNo)
  {
    var n := |ms| - 1;
    var y := ms[i := x];
    if i < n {
      assert y[..n] == ms[..n][i := x];
      assert y[n] == ms[n];
      CountSequenceUpdate(ms[..n], i, x, taskId, seqNo);
    } else {
      assert y[..n] == ms[..n];
    }
  }

  /** Reordering keeps, for every task, how many of its milestones carry each
      number: the numbers are permuted, never created or lost. */
  lemma MovedKeepsSequences(ms: seq<Milestone>, mi: nat, direction: string, taskId: int, seqNo: int)
    requires mi < |ms|
    ensures CountSequence(Moved(ms, mi, direction), taskId, seqNo) == CountSequence(ms, taskId, seqNo)
  {
    if direction == "up" || direction == "down" {
      var m := ms[mi];
      var newSeq := m.sequence + (if direction == "up" then -1 else 1);
      var j := FindSwap(ms, m.taskId, newSeq);
      if j.Some? {
        var k := j.value;
        var x1 := m.(sequence := ms[k].sequence);
        var ms1 := ms[mi := x1];
        var x2 := ms[k].(sequence := m.sequence);
        CountSequenceUpdate(ms, mi, x1, taskId, seqNo);
        CountSequenceUpdate(ms1, k, x2, taskId, seqNo);
        assert ms1[k] == ms[k];
      }
    }
  }

  /** The sequence numbers of task `taskId` are pairwise distinct. */
  ghost predicate DistinctSequences(ms: seq<Milestone>, taskId: int) {
    forall k, l :: 0 <= k < l < |ms| && ms[k].taskId == taskId && ms[l].taskId == taskId ==>
      ms[k].sequence != ms[l].sequence
  }

  /** With distinct sequence numbers, moving a milestone up and then down
      again restores the table. */
  lemma MoveUpThenDown(ms: seq<Milestone>, mi: nat)
    requires mi < |ms| && DistinctSequences(ms, ms[mi].taskId)
    requires FindSwap(ms, ms[mi].taskId, ms[mi].sequence - 1).Some?
    ensures Moved(Moved(ms, mi, "up"), mi, "down") == ms
  {
    var m := ms[mi];
    var j := FindSwap(ms, m.taskId, m.sequence - 1).value;
    var ms1 := Moved(ms, mi, "up");
    MovedSpec(ms, mi, "up");
    assert ms1[mi].sequence == m.sequence - 1 && ms1[j].sequence == m.sequence;
    var j2 := FindSwap(ms1, m.taskId, m.sequence);
    assert ms1[j].taskId == m.taskId;
    forall k | 0 <= k < |ms1| && k != j && ms1[k].taskId == m.taskId
      ensures ms1[k].sequence != m.sequence
    {
      if k != mi {
        assert ms1[k] == ms[k];
        if k < mi {
          assert ms[k].sequence != ms[mi].sequence;
        } else {
          assert ms[mi].sequence != ms[k].sequence;
        }
      }
    }
    assert j2 == Some(j);
    MovedSpec(ms1, mi, "down");
    var ms2 := Moved(ms1, mi, "down");
    assert |ms2| == |ms|;
    forall k | 0 <= k < |ms| ensures ms2[k] == ms[k] {
    }
  }

  // ---------------------------------------------------------------------
  // The scenario of the repository's own end-to-end script

  /** A task with milestones "Draft" (2026-02-05) and "Review" (2026-02-08):
      completing the first leaves the task open, completing the second
      completes it at that moment; the milestones are numbered 1 and 2. */
  lemma TwoMilestonesCompleteTheTask(typeId: int, priority: string, now0: Timestamp, now1: Timestamp,
                                     now2: Timestamp, now3: Timestamp, now4: Timestamp)
    ensures
      var t0 := Task(1, "Prepare BASR Minutes", None, TO_DO, priority, typeId, None, None, 739657, now0,
                     None, None, false, None, None, None);
      var m1 := NewMilestone(NextId([], (x: Milestone) => x.id), t0.id, "Draft", 739652, None, None, [], now1);
      var m2 := NewMilestone(NextId([m1], (x: Milestone) => x.id), t0.id, "Review", 739655, None, None, [m1], now2);
      var (tasks3, ms3) := SetMilestoneStatus([t0], [m1, m2], 0, COMPLETED, now3);
      && m1.sequence == 1 && m2.sequence == 2
      && tasks3[0].status == TO_DO
      && 1 < |ms3| && TaskIndex(tasks3, ms3[1].taskId).Some?
      && var (tasks4, _) := SetMilestoneStatus(tasks3, ms3, 1, COMPLETED, now4);
         tasks4[0].status == COMPLETED && tasks4[0].completedAt == Some(now4)
  {
    var t0 := Task(1, "Prepare BASR Minutes", None, TO_DO, priority, typeId, None, None, 739657, now0,
                   None, None, false, None, None, None);
    var m1 := NewMilestone(NextId([], (x: Milestone) => x.id), t0.id, "Draft", 739652, None, None, [], now1);
    assert MilestonesOf([], t0.id) == [];
    var m2 := NewMilestone(NextId([m1], (x: Milestone) => x.id), t0.id, "Review", 739655, None, None, [m1], now2);
    assert MilestonesOf([m1], t0.id) == [m1] + MilestonesOf([], t0.id);
    var (tasks3, ms3) := SetMilestoneStatus([t0], [m1, m2], 0, COMPLETED, now3);
    assert ms3 == [m1.(status := COMPLETED), m2];
    assert m2 in MilestonesOf(ms3, t0.id);
    var (tasks4, ms4) := SetMilestoneStatus(tasks3, ms3, 1, COMPLETED, now4);
    assert ms4 == [m1.(status := COMPLETED), m2.(status := COMPLETED)];
    var own := MilestonesOf(ms4, t0.id);
    assert own != [] by { assert ms4[0] in own; }
    assert AllCompleted(own);
  }
}
