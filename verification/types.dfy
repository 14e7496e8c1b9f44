/**
 * Record shapes shared by the dashboard and the history page.
 *
 * Units used throughout the model:
 *  - instants (due dates, completion times) are integers in milliseconds;
 *  - calendar days are integer day numbers (local midnight already applied);
 *  - points are counted in HALF-POINTS, because the scoring rules award
 *    1.5 and 0.5 points; a whole-point value `w` is stored as `2 * w`.
 */
module Types {

  datatype Option<T> = None | Some(value: T)

  datatype Priority = Low | Medium | High

  /** `Overdue` is a declared status that no operation ever stores. */
  datatype Status = Pending | Completed | Overdue

  datatype Task = Task(
    id: string,
    title: string,
    description: string,
    dueDate: int,
    status: Status,
    priority: Priority,
    points: int,              // half-points
    category: string,
    completedAt: Option<int>
  )

  /** The fields a user supplies when creating a task. */
  datatype TaskDraft = TaskDraft(
    title: string,
    description: string,
    dueDate: int,
    priority: Priority,
    category: string
  )

  datatype Profile = Profile(
    points: int,              // half-points
    rank: string,
    tasksCompleted: int,
    streak: int,
    precision: int,
    lastCompletedDate: Option<int>,   // day number
    dailyTasksCompleted: int,
    lastDailyReset: string,
    lastMonthlyReset: string,
    username: string
  )

  /** One band of the rank table; `maxPoints` may be unbounded. */
  datatype Ceiling = AtMost(n: int) | Unbounded
  datatype Rank = Rank(name: string, minPoints: int, maxPoints: Ceiling)

  /**
   * Index of the first task whose id is `id`, or -1 when there is none:
   * the lookup `findIndex(t => t.id === id)` (and `find`, which returns
   * the element at that index). That it is the FIRST such index, and that
   * -1 means absent, is `FindIndexFound`.
   */
  function FindIndex(ts: seq<Task>, id: string): (k: int)
    ensures -1 <= k < |ts|
    ensures k >= 0 ==> ts[k].id == id
  {
    if ts == [] then -1
    else if ts[0].id == id then 0
    else
      var k := FindIndex(ts[1..], id);
      if k == -1 then -1 else k + 1
  }

  /** Any task carrying the id is found, at its index or earlier. */
  lemma {:induction false} FindIndexFound(ts: seq<Task>, id: string, i: int)
    requires 0 <= i < |ts| && ts[i].id == id
    ensures 0 <= FindIndex(ts, id) <= i
  {
    if ts[0].id != id {
      FindIndexFound(ts[1..], id, i - 1);
    }
  }
}
