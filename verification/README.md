# TaskMaster scoring and history, modelled in Dafny

TaskMaster is a browser task tracker with gamified progress. This project models its core:

- the dashboard's **scoring and progression engine** (timeliness points, streak bonus, rank table, streak update and completion precision);
- the dashboard's two **state transitions**: adding a task and completing a task. Completion rewrites the task list, prepends to the stored history and updates the profile;
- the history page's **id de-duplication**, and its **status label and colour**.

Files:

- `types.dfy` (module `Types`) holds the records of `src/types.ts` and the id lookup (`findIndex` / `find`).
- `scoring.dfy` (module `Scoring`) holds the pure rules and their lemmas.
- `dashboard.dfy` (module `Dashboard`) holds the class `TaskBoard`. Its fields are `tasks`, `profile` and `history`. Its methods are `AddTask` and `CompleteTask`. `CompleteTask` runs the two updates the handler makes: `CompleteInList` for the task list and history, then `UpdateProfile`.
- `history.dfy` (module `History`) holds the history page's filter, its label and colour functions, and their lemmas.

Units:

- Instants are integers in milliseconds.
- Calendar days are integer day numbers.
- **Points are half-points.** The rules award 1.5 and 0.5, so a whole-point value `w` is stored as `2 * w`. A rank band `[min, max]` contains `hp` half-points when `2*min <= hp <= 2*max`.
- `Math.round` of a non-negative ratio `n/d` is `floor(n/d + 1/2)`, computed exactly.

Behaviour kept as the code has it:

- **Precision excludes the task being completed.** It is computed from the task list as it was before the completion. `Dashboard.PrecisionLagsCompletion` shows the consequence: a first completion that is late still leaves precision at 100. Precision counts a task as on time only when it is completed, has a completion instant, and that instant is at or before its due instant.
- **No double-completion guard.** Completing an already completed task again adds points again and prepends the task to the history again. `CompleteTask` promises that points strictly rise on every call, so completion is not idempotent.
- **Rank gaps.** A fractional score between two bands, such as 100.5, matches no band, so the rank falls back to `'Hero'` (`GapIsHero`). The same happens for negative scores. The fallback also fires for a band with an empty name, as with `||`, although no band has one.
- **Streak on the same day.** A day difference of 0, or a negative one, leaves the streak unchanged.
- **Every task with the id is rewritten.** The rewrite maps over the whole list. The history write sits inside that map, so every task carrying the id is completed and prepended to the history, in list order, so the last one in the list ends up first (`HistoryAfterReversed`). With unique ids this is exactly one prepend (`HistoryAfterUnique`). The profile is updated once, from the first such task (`find`).
- **A completed history entry without a completion instant** is labelled late and coloured yellow. Converting the missing value gives an invalid date, and comparing with it is false.

## Model

| member | source | states |
|---|---|---|
| Types.FindIndex | src/pages/TaskDashboard.tsx:186 | the result is -1 or an index of a task carrying the id |
| Types.FindIndexFound | src/pages/TaskDashboard.tsx:186 | a task carrying the id at index i is found at i or earlier, so the result is the first such index and is -1 only when no task has the id |
| Scoring.TimelinessPoints | src/pages/TaskDashboard.tsx:74-111 | the award is in (0, 12] points; a late completion earns at most 8; a completion at or before the due instant earns at least 2 |
| Scoring.TimelinessTable | src/pages/TaskDashboard.tsx:79-108 | late gives 8/4/1.5, exactly on the due instant gives 10/5/2, strictly early gives 12/6/2.5 for high/medium/low |
| Scoring.TimelinessOrdered | src/pages/TaskDashboard.tsx:79-108 | for every priority, late < exactly on time < early |
| Scoring.TimelinessByPriority | src/pages/TaskDashboard.tsx:81-107 | at the same timing, low < medium < high |
| Scoring.StreakBonus | src/pages/TaskDashboard.tsx:113-119 | the bonus is one of 0, 20, 50, 100, 250; it is 0 exactly below a streak of 3 and 250 exactly from 30 |
| Scoring.StreakBonusMonotone | src/pages/TaskDashboard.tsx:113-119 | the bonus never decreases as the streak grows |
| Scoring.StreakBonusSteps | src/pages/TaskDashboard.tsx:113-119 | the steps are exactly at 3, 7, 14 and 30 |
| Scoring.FindBand | src/pages/TaskDashboard.tsx:122-124 | the result is absent exactly when no band contains the points, otherwise it is the first band that does |
| Scoring.RankFor | src/pages/TaskDashboard.tsx:122-125 | the rank is never empty, and is either 'Hero' or the name of a band of the table; `RankOfBand`, `HeroFromTop`, `GapIsHero` and `NegativeIsHero` give its value for every score |
| Scoring.UpdateRank | src/pages/TaskDashboard.tsx:121-146 | returns the rank looked up from the points, and a rank-changed signal that holds exactly when it differs from the current rank |
| Scoring.RanksShape | src/pages/TaskDashboard.tsx:11-22 | the table has ten named, non-empty bands; it starts at 0, each band starts one whole point after the previous one ends, and the last band, 'Hero', is open from 5001 |
| Scoring.ContiguousOrdered | src/pages/TaskDashboard.tsx:11-22 | adjacent non-empty bands are in increasing order and pairwise disjoint |
| Scoring.FindBandFirst | src/pages/TaskDashboard.tsx:122-124 | the lookup returns the first band that contains the score |
| Scoring.FindBandOrdered | src/pages/TaskDashboard.tsx:122-124 | in an ordered table the lookup returns the one band containing the score |
| Scoring.ContiguousCovers | src/pages/TaskDashboard.tsx:11-22 | a contiguous table open at the top leaves no whole score above its start outside every band |
| Scoring.WholePointsRanked | src/pages/TaskDashboard.tsx:11-22 | every whole non-negative score lies in exactly one band |
| Scoring.RankOfBand | src/pages/TaskDashboard.tsx:121-125 | a score inside band i gets band i's name |
| Scoring.InitialRank | src/pages/TaskDashboard.tsx:26-28 | the initial rank 'Novice' is the rank of 0 points |
| Scoring.HeroFromTop | src/pages/TaskDashboard.tsx:121-125 | every score of at least 5001 gives 'Hero' |
| Scoring.GapIsHero | src/pages/TaskDashboard.tsx:121-125 | half a point above any band's maximum below the top band (100.5, 250.5, ...) gives 'Hero' |
| Scoring.NegativeIsHero | src/pages/TaskDashboard.tsx:121-125 | a negative score matches no band and gives 'Hero' |
| Scoring.NextStreak | src/pages/TaskDashboard.tsx:189-205 | no previous completion gives 1; a one-day gap adds 1; a longer gap gives 1; a zero or negative gap keeps the streak |
| Scoring.ConsecutiveDaysExtend | src/pages/TaskDashboard.tsx:189-205 | completing on each of n days following the last completion day raises the streak by n |
| Scoring.ConsecutiveDaysFromScratch | src/pages/TaskDashboard.tsx:189-205 | with no previous completion, completing on n consecutive days gives a streak of n |
| Scoring.SameDayKeepsStreak | src/pages/TaskDashboard.tsx:198-202 | any number of completions on the last completion day leaves the streak unchanged |
| Scoring.StreakPositive | src/pages/TaskDashboard.tsx:189-205 | once a completion day is recorded with a positive streak, the next streak is at least 1 |
| Scoring.OnTime | src/pages/TaskDashboard.tsx:213-218 | completed, with a completion instant at or before the due instant (also the test of src/pages/TaskHistoryPage.tsx:33-35 and :42-44); for a completed task with an instant, it is on time exactly when its award is at least the award for completing on the due instant itself, and otherwise its award is the late award |
| Scoring.CountCompleted | src/pages/TaskDashboard.tsx:212 | the number of completed tasks is at most the number of tasks |
| Scoring.CountOnTime | src/pages/TaskDashboard.tsx:213-218 | on-time completions are at most the completed ones, equal to them when every completed task is on time, and 0 when none is |
| Scoring.RoundRatio | src/pages/TaskDashboard.tsx:221 | the result is the integer nearest to n/d, with halves rounded up |
| Scoring.Precision | src/pages/TaskDashboard.tsx:212-222 | the result is in [0, 100]; it is 100 with no completed task or when all are on time, 0 when some task is completed and none on time, and otherwise the rounded percentage on time |
| History.Dedup | src/pages/TaskHistoryPage.tsx:14-16 | the output has distinct ids and is an order-preserving subsequence of the input; each kept entry is the first input entry with its id; every entry that is the first with its id is kept; kept entries come in the order of the positions they were kept from, so the output is exactly the first entry of each id in input order |
| History.DedupKeepsEveryId | src/pages/TaskHistoryPage.tsx:14-16 | every id of the input is still present in the output, through its first entry |
| History.DedupDistinct | src/pages/TaskHistoryPage.tsx:14-16 | an input with distinct ids is returned unchanged |
| History.DedupIdempotent | src/pages/TaskHistoryPage.tsx:14-16 | de-duplicating twice gives the same as once |
| History.PrependedEntryShown | src/pages/TaskHistoryPage.tsx:14-16 | after prepending an entry, it is shown first and no other shown entry has its id |
| History.StatusText | src/pages/TaskHistoryPage.tsx:40-47 | "Completed on time" exactly when completed at or before the due instant; "Completed late" exactly when completed otherwise; "Overdue" exactly when not completed |
| History.StatusColor | src/pages/TaskHistoryPage.tsx:31-38 | green exactly when on time, yellow exactly when completed late, red exactly when not completed |
| History.StatusColorMatchesText | src/pages/TaskHistoryPage.tsx:31-47 | the colour and the label always agree: green/on time, yellow/late, red/overdue |
| Dashboard.MarkCompleted | src/pages/TaskDashboard.tsx:164-171 | the rewritten task is completed at the given instant, and its points are the timeliness award with no streak bonus; id, title, description, due date, priority and category are kept |
| Dashboard.HistoryAfter | src/pages/TaskDashboard.tsx:162-180 | the history after the rewrite keeps the old history and adds at most one entry per task; `HistoryAfterReversed` gives it exactly |
| Dashboard.HistoryAfterReversed | src/pages/TaskDashboard.tsx:162-180 | the history after the rewrite is the completed copy of every task with the id, the last one in the list first, followed by the old history |
| Dashboard.CountId | src/pages/TaskDashboard.tsx:163-164 | the count of tasks carrying the id is 0 exactly when none does |
| Dashboard.HistoryAfterShape | src/pages/TaskDashboard.tsx:162-180 | the history gains exactly one entry per task with the id, each with that id, completed and stamped with the instant, placed in front of the unchanged old history |
| Dashboard.HistoryAfterUnique | src/pages/TaskDashboard.tsx:173-175 | when exactly one task has the id, the history becomes that task, completed, followed by the old history |
| Dashboard.CompletedTaskShownFirst | src/pages/TaskDashboard.tsx:173-175 | after completing a task with a unique id, the loaded history shows it first and as the only entry for its id |
| Dashboard.PrecisionLagsCompletion | src/pages/TaskDashboard.tsx:212-222 | precision before a late first completion is 100, though counting that completion would give 0 |
| Dashboard.TaskBoard.constructor | src/pages/TaskDashboard.tsx:25-37 | empty task list and history, and the default profile, which satisfies the state invariant |
| Dashboard.TaskBoard.AddTask | src/pages/TaskDashboard.tsx:148-156 | appends one pending task with 0 points, no completion instant, the fresh id and the draft's fields; earlier tasks, profile and history are unchanged |
| Dashboard.TaskBoard.CompleteInList | src/pages/TaskDashboard.tsx:162-183 | tasks with the id are completed in place and all others are unchanged and in order; the history becomes HistoryAfter of the old list and old history; the state invariant is kept |
| Dashboard.TaskBoard.UpdateProfile | src/pages/TaskDashboard.tsx:185-236 | the streak follows NextStreak; points rise by exactly timeliness plus the new streak's bonus; the rank is recomputed and the signal reports a change; precision comes from the list before completion; both counters rise by 1; the last completion day becomes today; username and reset stamps are unchanged; the profile invariant is kept |
| Dashboard.TaskBoard.CompleteTask | src/pages/TaskDashboard.tsx:158-237 | tasks with the id are completed in place and all others are unchanged and in order; the history gets the prepends; the streak follows NextStreak; points rise by exactly timeliness plus the new streak's bonus, so they strictly rise; the rank is recomputed and the signal reports a change; precision comes from the old list; both counters rise by 1; the last completion day becomes today; username and reset stamps are unchanged; the state invariant is kept |

## Left out

- Browser storage: reads and writes of `tasks`, `profile` and `taskHistory`, and JSON parsing. The history is the `history` field. The history page's filter is applied to a sequence passed in.
- Loading the stored profile and copying the logged-in username into it (src/pages/TaskDashboard.tsx:43-72). These are session and storage effects.
- Clock reads. The completion instant `now`, the day number `today` and the new task's id are parameters. `today` is a separate parameter that nothing ties to the day of `now`. The source reads the clock at src/pages/TaskDashboard.tsx:159 for the day, at :170 for the completion stamp, and inside each of the two award computations (:165 for the task's points, :187 for the profile's points, each reading the clock at :75). The model merges the last three into the single instant `now`, so the task's points and the profile's award are the same value. The constructor likewise uses one `resetStamp` for the two reads at :34-35.
- Local midnight, time zones, daylight saving and ISO date strings. The day difference is `today - last` on day numbers.
- Floating-point arithmetic. Points are exact half-points. Precision is exact rounding of the ratio, so any floating-point error in `(on / completed) * 100` is not modelled.
- The promotion toast. `UpdateRank` and `CompleteTask` return a rank-changed boolean instead.
- Rendering, navigation, the login page, the profile page, date formatting, and the colour maps of the task list and stats panel.
- React's re-execution of state-updater functions. The history write inside the task updater is modelled as running once per matching task.
- A completion for an id that no task has is excluded by `CompleteTask`'s precondition. The source dereferences the missing task and fails there.
