/**
 * The dashboard's state and its two handlers: adding a task and
 * completing one. The state is the task list, the user's profile and the
 * stored history list (most recent first).
 */
module Dashboard {
  import opened Types
  import opened Scoring
  import History

  // ---------------------------------------------------------------------
  // Task rewrite and history prepend
  // ---------------------------------------------------------------------

  /** A task as completion at instant `now` rewrites it. */
  function MarkCompleted(t: Task, now: int): (r: Task)
    ensures r.status == Completed && r.completedAt == Some(now)
    ensures r.points == TimelinessPoints(t.priority, t.dueDate, now)
    ensures r.id == t.id && r.title == t.title && r.description == t.description
    ensures r.dueDate == t.dueDate && r.priority == t.priority && r.category == t.category
  {
    t.(status := Completed, points := TimelinessPoints(t.priority, t.dueDate, now), completedAt := Some(now))
  }

  /**
   * The history after the rewrite walks `ts` in order and prepends the
   * completed copy of every task whose id is `id` to `h`.
   */
  function HistoryAfter(ts: seq<Task>, id: string, now: int, h: seq<Task>): (r: seq<Task>)
    ensures |h| <= |r| <= |h| + |ts|
    decreases |ts|
  {
    if ts == [] then h
    else HistoryAfter(ts[1..], id, now, if ts[0].id == id then [MarkCompleted(ts[0], now)] + h else h)
  }

  /** The completed copies of the tasks in `ts` whose id is `id`, in list order. */
  function Completions(ts: seq<Task>, id: string, now: int): (r: seq<Task>)
    ensures |r| == CountId(ts, id)
  {
    if ts == [] then []
    else (if ts[0].id == id then [MarkCompleted(ts[0], now)] else []) + Completions(ts[1..], id, now)
  }

  /** `s` back to front. */
  function Reversed(s: seq<Task>): (r: seq<Task>)
    ensures |r| == |s|
  {
    if s == [] then [] else Reversed(s[1..]) + [s[0]]
  }

  /** Entry `i` of the reversed sequence is entry `|s| - 1 - i` of `s`. */
  lemma {:induction false} ReversedAt(s: seq<Task>, i: int)
    requires 0 <= i < |s|
    ensures Reversed(s)[i] == s[|s| - 1 - i]
    decreases |s|
  {
    if i < |s| - 1 {
      ReversedAt(s[1..], i);
    }
  }

  lemma ReversedCons(m: Task, c: seq<Task>)
    ensures Reversed([m] + c) == Reversed(c) + [m]
  {
    assert ([m] + c)[1..] == c;
  }

  /**
   * The history after the rewrite is the completed copy of every task with
   * the id, the last one in the list first, in front of the old history.
   */
  lemma {:induction false} HistoryAfterReversed(ts: seq<Task>, id: string, now: int, h: seq<Task>)
    ensures HistoryAfter(ts, id, now, h) == Reversed(Completions(ts, id, now)) + h
    decreases |ts|
  {
    if ts != [] {
      var c := Completions(ts[1..], id, now);
      if ts[0].id == id {
        var m := MarkCompleted(ts[0], now);
        assert HistoryAfter(ts, id, now, h) == HistoryAfter(ts[1..], id, now, [m] + h);
        HistoryAfterReversed(ts[1..], id, now, [m] + h);
        assert Completions(ts, id, now) == [m] + c;
        ReversedCons(m, c);
        var rc := Reversed(c);
        assert rc + ([m] + h) == (rc + [m]) + h;
      } else {
        HistoryAfterReversed(ts[1..], id, now, h);
        assert Completions(ts, id, now) == c;
      }
    }
  }

  /** Number of tasks in `ts` whose id is `id`. */
  function CountId(ts: seq<Task>, id: string): (n: nat)
    ensures n <= |ts|
    ensures n == 0 <==> forall i :: 0 <= i < |ts| ==> ts[i].id != id
  {
    if ts == [] then 0
    else
      var rest := CountId(ts[1..], id);
      assert forall i :: 1 <= i < |ts| ==> ts[i] == ts[1..][i - 1];
      (if ts[0].id == id then 1 else 0) + rest
  }

  /**
   * The history grows by one completed entry per task carrying the id, all
   * stamped `now`, in front of the unchanged old history.
   */
  lemma {:induction false} HistoryAfterShape(ts: seq<Task>, id: string, now: int, h: seq<Task>)
    ensures var r := HistoryAfter(ts, id, now, h);
      && |r| == |h| + CountId(ts, id)
      && r[CountId(ts, id)..] == h
      && forall k :: 0 <= k < CountId(ts, id) ==> r[k].id == id && r[k].status == Completed && r[k].completedAt == Some(now)
    decreases |ts|
  {
    if ts != [] {
      var h' := if ts[0].id == id then [MarkCompleted(ts[0], now)] + h else h;
      HistoryAfterShape(ts[1..], id, now, h');
      var n := CountId(ts[1..], id);
      var r := HistoryAfter(ts, id, now, h);
      assert r == HistoryAfter(ts[1..], id, now, h');
      if ts[0].id == id {
        assert CountId(ts, id) == n + 1;
        assert r[n..] == h';
        assert r[n] == MarkCompleted(ts[0], now);
        assert r[n + 1..] == r[n..][1..];
      } else {
        assert CountId(ts, id) == n;
      }
    }
  }

  /** When exactly one task has the id, the history gains exactly that task, completed. */
  lemma {:induction false} HistoryAfterUnique(ts: seq<Task>, id: string, now: int, h: seq<Task>, k: int)
    requires 0 <= k < |ts| && ts[k].id == id
    requires forall j :: 0 <= j < |ts| && j != k ==> ts[j].id != id
    ensures HistoryAfter(ts, id, now, h) == [MarkCompleted(ts[k], now)] + h
    decreases |ts|
  {
    if k == 0 {
      HistoryAfterShape(ts[1..], id, now, [MarkCompleted(ts[0], now)] + h);
      assert CountId(ts[1..], id) == 0 by {
        forall j | 0 <= j < |ts[1..]| ensures ts[1..][j].id != id {
          assert ts[1..][j] == ts[j + 1];
        }
      }
    } else {
      HistoryAfterUnique(ts[1..], id, now, h, k - 1);
    }
  }

  /**
   * Completing the only task with a given id and then loading the history
   * shows that completed task, first, as the sole entry for its id.
   */
  lemma CompletedTaskShownFirst(ts: seq<Task>, id: string, now: int, h: seq<Task>, k: int)
    requires 0 <= k < |ts| && ts[k].id == id
    requires forall j :: 0 <= j < |ts| && j != k ==> ts[j].id != id
    ensures var r := History.Dedup(HistoryAfter(ts, id, now, h));
      |r| > 0 && r[0] == MarkCompleted(ts[k], now) &&
      forall j :: 0 < j < |r| ==> r[j].id != id
  {
    HistoryAfterUnique(ts, id, now, h, k);
    History.PrependedEntryShown(MarkCompleted(ts[k], now), h);
  }

  /**
   * Precision is computed from the task list as it was before the
   * completion: a first task completed late still leaves precision at 100,
   * although the list now holds one completed task, which is late.
   */
  lemma PrecisionLagsCompletion(t: Task, now: int)
    requires t.status == Pending && now > t.dueDate
    ensures Precision([t]) == 100
    ensures Precision([MarkCompleted(t, now)]) == 0
  {
    assert [MarkCompleted(t, now)][1..] == [];
    assert [t][1..] == [];
  }

  // ---------------------------------------------------------------------
  // State invariants
  // ---------------------------------------------------------------------

  /** A task is completed exactly when it carries a completion instant. */
  predicate TaskValid(t: Task) {
    (t.status == Completed <==> t.completedAt.Some?) && t.points >= 0
  }

  predicate ProfileValid(p: Profile) {
    && p.points >= 0
    && p.rank == RankFor(p.points)
    && p.tasksCompleted >= 0
    && p.dailyTasksCompleted >= 0
    && p.streak >= 0
    && (p.lastCompletedDate.Some? ==> p.streak >= 1)
    && 0 <= p.precision <= 100
  }

  class TaskBoard {
    var tasks: seq<Task>
    var profile: Profile
    var history: seq<Task>

    ghost predicate Valid()
      reads this
    {
      && ProfileValid(profile)
      && (forall i :: 0 <= i < |tasks| ==> TaskValid(tasks[i]))
      && (forall i :: 0 <= i < |history| ==> history[i].status == Completed && TaskValid(history[i]))
    }

    /** The state a fresh session starts from; `resetStamp` is the current date. */
    constructor (resetStamp: string)
      ensures Valid()
      ensures tasks == [] && history == []
      ensures profile == Profile(0, "Novice", 0, 0, 100, None, 0, resetStamp, resetStamp, "")
    {
      InitialRank();
      tasks := [];
      history := [];
      profile := Profile(0, "Novice", 0, 0, 100, None, 0, resetStamp, resetStamp, "");
    }

    /** Appends a new pending task with no points under the fresh identifier `id`. */
    method AddTask(draft: TaskDraft, id: string)
      requires Valid()
      modifies this
      ensures Valid()
      ensures |tasks| == |old(tasks)| + 1 && tasks[..|old(tasks)|] == old(tasks)
      ensures tasks[|old(tasks)|] ==
                Task(id, draft.title, draft.description, draft.dueDate, Pending, draft.priority, 0, draft.category, None)
      ensures profile == old(profile) && history == old(history)
    {
      var newTask := Task(id, draft.title, draft.description, draft.dueDate, Pending, draft.priority, 0, draft.category, None);
      tasks := tasks + [newTask];
    }

    /**
     * Completes every task whose id is `taskId` at instant `now` on day
     * `today`, prepends each completed copy to the history and updates the
     * profile from the first such task. Returns whether the rank changed.
     */
    method CompleteTask(taskId: string, now: int, today: int) returns (promoted: bool)
      requires Valid()
      requires FindIndex(tasks, taskId) >= 0   // some task has the id
      modifies this
      ensures Valid()
      // the task list: only tasks with the id change, and nothing moves
      ensures |tasks| == |old(tasks)|
      ensures forall i :: 0 <= i < |tasks| ==>
                tasks[i] == if old(tasks)[i].id == taskId then MarkCompleted(old(tasks)[i], now) else old(tasks)[i]
      // the history
      ensures history == HistoryAfter(old(tasks), taskId, now, old(history))
      // the profile
      ensures profile.streak == NextStreak(old(profile).streak, old(profile).lastCompletedDate, today)
      ensures var t := old(tasks)[FindIndex(old(tasks), taskId)];
              profile.points == old(profile).points + TimelinessPoints(t.priority, t.dueDate, now) + 2 * StreakBonus(profile.streak)
      ensures profile.points > old(profile).points
      ensures profile.rank == RankFor(profile.points)
      ensures promoted <==> profile.rank != old(profile).rank
      ensures profile.precision == Precision(old(tasks))
      ensures profile.tasksCompleted == old(profile).tasksCompleted + 1
      ensures profile.dailyTasksCompleted == old(profile).dailyTasksCompleted + 1
      ensures profile.lastCompletedDate == Some(today)
      ensures profile.username == old(profile).username
      ensures profile.lastDailyReset == old(profile).lastDailyReset
      ensures profile.lastMonthlyReset == old(profile).lastMonthlyReset
    {
      var prev := tasks;
      CompleteInList(taskId, now);
      promoted := UpdateProfile(prev[FindIndex(prev, taskId)], prev, now, today);
    }

    /**
     * The task-list update of a completion: every task with the id is
     * rewritten in place and, as it is, prepended to the history.
     */
    method CompleteInList(taskId: string, now: int)
      requires Valid()
      modifies this`tasks, this`history
      ensures Valid()
      ensures |tasks| == |old(tasks)|
      ensures forall i :: 0 <= i < |tasks| ==>
                tasks[i] == if old(tasks)[i].id == taskId then MarkCompleted(old(tasks)[i], now) else old(tasks)[i]
      ensures history == HistoryAfter(old(tasks), taskId, now, old(history))
    {
      var prev := tasks;
      var prevHistory := history;
      var updated: seq<Task> := [];
      var hist := history;
      var i := 0;
      while i < |prev|
        invariant 0 <= i <= |prev|
        invariant |updated| == i
        invariant forall j :: 0 <= j < i ==>
                    updated[j] == if prev[j].id == taskId then MarkCompleted(prev[j], now) else prev[j]
        invariant forall j :: 0 <= j < i ==> TaskValid(updated[j])
        invariant forall j :: 0 <= j < |hist| ==> hist[j].status == Completed && TaskValid(hist[j])
        invariant HistoryAfter(prev[i..], taskId, now, hist) == HistoryAfter(prev, taskId, now, prevHistory)
      {
        var t := prev[i];
        assert prev[i..][1..] == prev[i + 1..];
        if t.id == taskId {
          var done := MarkCompleted(t, now);
          hist := [done] + hist;
          updated := updated + [done];
        } else {
          updated := updated + [t];
        }
        i := i + 1;
      }
      tasks := updated;
      history := hist;
    }

    /**
     * The profile update of a completion of `target`, where `prevTasks` is
     * the task list as it was before the completion. Returns whether the
     * rank changed.
     */
    method UpdateProfile(target: Task, prevTasks: seq<Task>, now: int, today: int) returns (promoted: bool)
      requires ProfileValid(profile)
      modifies this`profile
      ensures ProfileValid(profile)
      ensures profile.streak == NextStreak(old(profile).streak, old(profile).lastCompletedDate, today)
      ensures profile.points ==
                old(profile).points + TimelinessPoints(target.priority, target.dueDate, now) + 2 * StreakBonus(profile.streak)
      ensures profile.points > old(profile).points
      ensures profile.rank == RankFor(profile.points)
      ensures promoted <==> profile.rank != old(profile).rank
      ensures profile.precision == Precision(prevTasks)
      ensures profile.tasksCompleted == old(profile).tasksCompleted + 1
      ensures profile.dailyTasksCompleted == old(profile).dailyTasksCompleted + 1
      ensures profile.lastCompletedDate == Some(today)
      ensures profile.username == old(profile).username
      ensures profile.lastDailyReset == old(profile).lastDailyReset
      ensures profile.lastMonthlyReset == old(profile).lastMonthlyReset
    {
      var timeliness := TimelinessPoints(target.priority, target.dueDate, now);

      var newStreak := profile.streak;
      match profile.lastCompletedDate {
        case Some(last) =>
          var daysDifference := today - last;
          if daysDifference == 1 {
            newStreak := newStreak + 1;
          } else if daysDifference > 1 {
            newStreak := 1;
          }
        case None =>
          newStreak := 1;
      }

      var streakBonus := StreakBonus(newStreak);
      var newPoints := profile.points + timeliness + 2 * streakBonus;
      var precision := Precision(prevTasks);
      var rankUpdate := UpdateRank(newPoints, profile.rank);

      profile := profile.(
        points := newPoints,
        rank := rankUpdate.0,
        tasksCompleted := profile.tasksCompleted + 1,
        streak := newStreak,
        precision := precision,
        lastCompletedDate := Some(today),
        dailyTasksCompleted := profile.dailyTasksCompleted + 1
      );
      promoted := rankUpdate.1;
    }
  }
}
