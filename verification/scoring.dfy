/**
 * The scoring and progression rules of the task dashboard: timeliness
 * points, the streak bonus, the rank table, the streak update and the
 * completion precision. All points are in half-points (see module Types).
 */
module Scoring {
  import opened Types

  // ---------------------------------------------------------------------
  // Timeliness points
  // ---------------------------------------------------------------------

  /**
   * Half-points earned by completing a task of priority `p`, due at `due`,
   * at instant `at`. A completion after the due instant is late (8 / 4 /
   * 1.5); otherwise the priority's base applies (10 / 5 / 2), plus a bonus
   * (2 / 1 / 0.5) only when strictly before the due instant.
   */
  function TimelinessPoints(p: Priority, due: int, at: int): (r: int)
    ensures 0 < r <= 24
    ensures at > due ==> r <= 16
    ensures at <= due ==> r >= 4
  {
    if at > due then
      match p
      case High => 16
      case Medium => 8
      case Low => 3
    else
      match p
      case High => 20 + (if at < due then 4 else 0)
      case Medium => 10 + (if at < due then 2 else 0)
      case Low => 4 + (if at < due then 1 else 0)
  }

  /** The table of values, in whole points times two. */
  lemma TimelinessTable(p: Priority, due: int, at: int)
    ensures at > due ==>
              TimelinessPoints(p, due, at) == (match p case High => 2 * 8 case Medium => 2 * 4 case Low => 3)
    ensures at == due ==>
              TimelinessPoints(p, due, at) == (match p case High => 2 * 10 case Medium => 2 * 5 case Low => 2 * 2)
    ensures at < due ==>
              TimelinessPoints(p, due, at) == (match p case High => 2 * 12 case Medium => 2 * 6 case Low => 5)
  {
  }

  /** Late earns strictly less than on time, which earns strictly less than early. */
  lemma TimelinessOrdered(p: Priority, due: int, early: int, late: int)
    requires early < due < late
    ensures TimelinessPoints(p, due, late) < TimelinessPoints(p, due, due) < TimelinessPoints(p, due, early)
  {
  }

  /** For the same timing, a higher priority earns strictly more. */
  lemma TimelinessByPriority(due: int, at: int)
    ensures TimelinessPoints(Low, due, at) < TimelinessPoints(Medium, due, at) < TimelinessPoints(High, due, at)
  {
  }

  // ---------------------------------------------------------------------
  // Streak bonus
  // ---------------------------------------------------------------------

  /** Bonus (whole points) for a streak of `streak` consecutive days. */
  function StreakBonus(streak: int): (r: int)
    ensures r in {0, 20, 50, 100, 250}
    ensures r == 0 <==> streak < 3
    ensures r == 250 <==> streak >= 30
  {
    if streak >= 30 then 250
    else if streak >= 14 then 100
    else if streak >= 7 then 50
    else if streak >= 3 then 20
    else 0
  }

  /** The bonus never decreases as the streak grows. */
  lemma StreakBonusMonotone(a: int, b: int)
    requires a <= b
    ensures StreakBonus(a) <= StreakBonus(b)
  {
  }

  /** The steps of the table sit exactly at 3, 7, 14 and 30. */
  lemma StreakBonusSteps()
    ensures StreakBonus(2) == 0 && StreakBonus(3) == 20
    ensures StreakBonus(6) == 20 && StreakBonus(7) == 50
    ensures StreakBonus(13) == 50 && StreakBonus(14) == 100
    ensures StreakBonus(29) == 100 && StreakBonus(30) == 250
  {
  }

  // ---------------------------------------------------------------------
  // Rank
  // ---------------------------------------------------------------------

  const RANKS: seq<Rank> := [
    Rank("Novice", 0, AtMost(100)),
    Rank("Apprentice", 101, AtMost(250)),
    Rank("Proficient", 251, AtMost(500)),
    Rank("Expert", 501, AtMost(800)),
    Rank("Master", 801, AtMost(1200)),
    Rank("Grandmaster", 1201, AtMost(1800)),
    Rank("Legend", 1801, AtMost(2500)),
    Rank("Titan", 2501, AtMost(3500)),
    Rank("Champion", 3501, AtMost(5000)),
    Rank("Hero", 5001, Unbounded)
  ]

  /** `minPoints <= points <= maxPoints`, with `hp` in half-points. */
  predicate InBand(b: Rank, hp: int) {
    2 * b.minPoints <= hp && (b.maxPoints.Unbounded? || hp <= 2 * b.maxPoints.n)
  }

  /** The first band containing `hp` (the table's `find`), if any. */
  function FindBand(bands: seq<Rank>, hp: int): (r: Option<Rank>)
    ensures r.None? <==> forall i :: 0 <= i < |bands| ==> !InBand(bands[i], hp)
    ensures r.Some? ==> exists i :: 0 <= i < |bands| && bands[i] == r.value && InBand(bands[i], hp) &&
                                    forall j :: 0 <= j < i ==> !InBand(bands[j], hp)
  {
    if bands == [] then None
    else if InBand(bands[0], hp) then Some(bands[0])
    else
      var r := FindBand(bands[1..], hp);
      assert forall i :: 1 <= i < |bands| ==> bands[i] == bands[1..][i - 1];
      r
  }

  /** The rank name for `hp` half-points; `'Hero'` when no band matches. */
  function RankFor(hp: int): (r: string)
    ensures r != ""
    ensures r == "Hero" || exists i :: 0 <= i < |RANKS| && RANKS[i].name == r
  {
    var b := FindBand(RANKS, hp);
    if b.Some? && b.value.name != "" then b.value.name else "Hero"
  }

  /** The rank after a change of points, and whether it differs from `current`. */
  function UpdateRank(hp: int, current: string): (r: (string, bool))
    ensures r.0 == RankFor(hp)
    ensures r.1 <==> RankFor(hp) != current
  {
    var name := RankFor(hp);
    (name, name != current)
  }

  /** Each band ends one whole point before the next one starts. */
  predicate Contiguous(bands: seq<Rank>) {
    forall i :: 0 <= i < |bands| - 1 ==>
      bands[i].maxPoints.AtMost? && bands[i + 1].minPoints == bands[i].maxPoints.n + 1
  }

  /** No band is empty. */
  predicate NonEmptyBands(bands: seq<Rank>) {
    forall i :: 0 <= i < |bands| ==> bands[i].maxPoints.AtMost? ==> bands[i].minPoints <= bands[i].maxPoints.n
  }

  /** The bands are listed in increasing order and do not overlap. */
  predicate Ordered(bands: seq<Rank>) {
    forall i, j :: 0 <= i < j < |bands| ==> bands[i].maxPoints.AtMost? && bands[i].maxPoints.n < bands[j].minPoints
  }

  /** Every band has a non-empty name. */
  predicate Named(bands: seq<Rank>) {
    forall i :: 0 <= i < |bands| ==> bands[i].name != ""
  }

  /** The shape of the rank table: from 0 up, adjacent, non-empty, named, open at the top. */
  lemma RanksShape()
    ensures |RANKS| == 10 && RANKS[0].minPoints == 0
    ensures RANKS[9].maxPoints.Unbounded? && RANKS[9].minPoints == 5001 && RANKS[9].name == "Hero"
    ensures Contiguous(RANKS) && NonEmptyBands(RANKS) && Named(RANKS)
  {
  }

  /** Adjacent non-empty bands are in increasing order and do not overlap. */
  lemma {:induction false} ContiguousOrdered(bands: seq<Rank>)
    requires Contiguous(bands) && NonEmptyBands(bands)
    ensures Ordered(bands)
  {
    forall i, j | 0 <= i < j < |bands|
      ensures bands[i].maxPoints.AtMost? && bands[i].maxPoints.n < bands[j].minPoints
    {
      var k := i + 1;
      while k < j
        invariant i < k <= j
        invariant bands[i].maxPoints.n < bands[k].minPoints
      {
        k := k + 1;
      }
    }
  }

  /** The lookup returns band `i` when `i` is the first band containing the value. */
  lemma {:induction false} FindBandFirst(bands: seq<Rank>, i: int, hp: int)
    requires 0 <= i < |bands| && InBand(bands[i], hp)
    requires forall j :: 0 <= j < i ==> !InBand(bands[j], hp)
    ensures FindBand(bands, hp) == Some(bands[i])
  {
    if i > 0 {
      assert !InBand(bands[0], hp);
      FindBandFirst(bands[1..], i - 1, hp);
    }
  }

  /** In an ordered table, the lookup returns the one band containing the value. */
  lemma FindBandOrdered(bands: seq<Rank>, i: int, hp: int)
    requires Ordered(bands)
    requires 0 <= i < |bands| && InBand(bands[i], hp)
    ensures FindBand(bands, hp) == Some(bands[i])
  {
    forall j | 0 <= j < i
      ensures !InBand(bands[j], hp)
    {
      assert bands[j].maxPoints.n < bands[i].minPoints;
    }
    FindBandFirst(bands, i, hp);
  }

  /** A value inside band `i` gets the name of band `i`. */
  lemma RankOfBand(i: int, hp: int)
    requires 0 <= i < |RANKS| && InBand(RANKS[i], hp)
    ensures RankFor(hp) == RANKS[i].name
  {
    RanksShape();
    ContiguousOrdered(RANKS);
    FindBandOrdered(RANKS, i, hp);
  }

  /** In a contiguous table starting at `bands[0].minPoints`, every whole value from there up is in a band. */
  lemma {:induction false} ContiguousCovers(bands: seq<Rank>, w: int)
    requires bands != [] && Contiguous(bands) && bands[|bands| - 1].maxPoints.Unbounded?
    requires w >= bands[0].minPoints
    ensures exists i :: 0 <= i < |bands| && InBand(bands[i], 2 * w)
  {
    var i := 0;
    while bands[i].maxPoints.AtMost? && w > bands[i].maxPoints.n
      invariant 0 <= i < |bands|
      invariant bands[i].minPoints <= w
      decreases |bands| - i
    {
      i := i + 1;
    }
    assert InBand(bands[i], 2 * w);
  }

  /** Every whole number of points from 0 up lies in exactly one band. */
  lemma WholePointsRanked(w: int)
    requires w >= 0
    ensures exists i :: 0 <= i < |RANKS| && InBand(RANKS[i], 2 * w)
    ensures forall i, j :: 0 <= i < j < |RANKS| && InBand(RANKS[i], 2 * w) ==> !InBand(RANKS[j], 2 * w)
  {
    RanksShape();
    ContiguousCovers(RANKS, w);
    ContiguousOrdered(RANKS);
  }

  /** Starting from zero points the rank is the first band's. */
  lemma InitialRank()
    ensures RankFor(0) == "Novice"
  {
    RankOfBand(0, 0);
  }

  /** From 5001 points upwards the rank is `'Hero'`. */
  lemma HeroFromTop(hp: int)
    requires hp >= 2 * 5001
    ensures RankFor(hp) == "Hero"
  {
    RanksShape();
    RankOfBand(9, hp);
  }

  /**
   * A half-point just above a band's maximum (100.5, 250.5, ...) lies in
   * no band, so the lookup fails and the rank becomes `'Hero'`.
   */
  lemma GapIsHero(i: int)
    requires 0 <= i < |RANKS| - 1
    ensures RANKS[i].maxPoints.AtMost?
    ensures RankFor(2 * RANKS[i].maxPoints.n + 1) == "Hero"
  {
    RanksShape();
    ContiguousOrdered(RANKS);
    var hp := 2 * RANKS[i].maxPoints.n + 1;
    forall j | 0 <= j < |RANKS|
      ensures !InBand(RANKS[j], hp)
    {
      if j > i + 1 {
        assert RANKS[i + 1].maxPoints.n < RANKS[j].minPoints;
      }
    }
  }

  /** Negative points match no band either. */
  lemma NegativeIsHero(hp: int)
    requires hp < 0
    ensures RankFor(hp) == "Hero"
  {
    RanksShape();
    ContiguousOrdered(RANKS);
    forall j | 0 <= j < |RANKS|
      ensures !InBand(RANKS[j], hp)
    {
      if j > 0 {
        assert RANKS[0].maxPoints.n < RANKS[j].minPoints;
      }
    }
  }

  // ---------------------------------------------------------------------
  // Streak
  // ---------------------------------------------------------------------

  /**
   * The streak after a completion on day `today`, given the streak and the
   * day of the previous completion: no previous day gives 1; a one-day gap
   * continues the streak; a longer gap restarts it at 1; the same day (or
   * a day in the past) leaves it as it is.
   */
  function NextStreak(streak: int, last: Option<int>, today: int): (r: int)
    ensures last.None? ==> r == 1
    ensures last.Some? && today - last.value == 1 ==> r == streak + 1
    ensures last.Some? && today - last.value > 1 ==> r == 1
    ensures last.Some? && today - last.value <= 0 ==> r == streak
  {
    match last
    case None => 1
    case Some(d) =>
      if today - d == 1 then streak + 1
      else if today - d > 1 then 1
      else streak
  }

  /** The streak after one completion on each of `days`, in order. */
  function StreakAfter(streak: int, last: Option<int>, days: seq<int>): int
    decreases |days|
  {
    if days == [] then streak
    else StreakAfter(NextStreak(streak, last, days[0]), Some(days[0]), days[1..])
  }

  /** A completion on each of `n` consecutive days after the last one adds `n`. */
  lemma {:induction false} ConsecutiveDaysExtend(streak: int, d: int, days: seq<int>)
    requires forall i :: 0 <= i < |days| ==> days[i] == d + 1 + i
    ensures StreakAfter(streak, Some(d), days) == streak + |days|
    decreases |days|
  {
    if days != [] {
      ConsecutiveDaysExtend(streak + 1, d + 1, days[1..]);
    }
  }

  /** Starting afresh, completions on `n` consecutive days give a streak of `n`. */
  lemma {:induction false} ConsecutiveDaysFromScratch(streak: int, days: seq<int>)
    requires days != []
    requires forall i :: 0 <= i < |days| ==> days[i] == days[0] + i
    ensures StreakAfter(streak, None, days) == |days|
  {
    ConsecutiveDaysExtend(1, days[0], days[1..]);
  }

  /** Completions that all fall on the last completion's day leave the streak alone. */
  lemma {:induction false} SameDayKeepsStreak(streak: int, d: int, days: seq<int>)
    requires forall i :: 0 <= i < |days| ==> days[i] == d
    ensures StreakAfter(streak, Some(d), days) == streak
  {
    if days != [] {
      SameDayKeepsStreak(streak, d, days[1..]);
    }
  }

  /** Once a completion has been recorded, the streak stays at least 1. */
  lemma StreakPositive(streak: int, last: Option<int>, today: int)
    requires last.Some? ==> streak >= 1
    ensures NextStreak(streak, last, today) >= 1
  {
  }

  // ---------------------------------------------------------------------
  // Precision
  // ---------------------------------------------------------------------

  /**
   * A completed task finished no later than its due instant. The award
   * draws the same line: a completion is on time exactly when it earned at
   * least the award for finishing on the due instant itself, and any other
   * completion earned the late award of its priority.
   */
  predicate OnTime(t: Task)
    ensures t.status == Completed && t.completedAt.Some? ==>
              (OnTime(t) <==> TimelinessPoints(t.priority, t.dueDate, t.completedAt.value) >= TimelinessPoints(t.priority, t.dueDate, t.dueDate))
    ensures t.status == Completed && t.completedAt.Some? && !OnTime(t) ==>
              TimelinessPoints(t.priority, t.dueDate, t.completedAt.value) == TimelinessPoints(t.priority, t.dueDate, t.dueDate + 1)
  {
    t.status == Completed && t.completedAt.Some? && t.completedAt.value <= t.dueDate
  }

  /** Number of tasks whose status is completed. */
  function CountCompleted(ts: seq<Task>): (n: nat)
    ensures n <= |ts|
  {
    if ts == [] then 0 else (if ts[0].status == Completed then 1 else 0) + CountCompleted(ts[1..])
  }

  /** Number of completed tasks finished on time; never more than the completed ones. */
  function CountOnTime(ts: seq<Task>): (n: nat)
    ensures n <= CountCompleted(ts)
    ensures (forall i :: 0 <= i < |ts| && ts[i].status == Completed ==> OnTime(ts[i])) ==> n == CountCompleted(ts)
    ensures (forall i :: 0 <= i < |ts| ==> !OnTime(ts[i])) ==> n == 0
  {
    if ts == [] then 0
    else
      var rest := CountOnTime(ts[1..]);
      assert forall i :: 1 <= i < |ts| ==> ts[i] == ts[1..][i - 1];
      (if OnTime(ts[0]) then 1 else 0) + rest
  }

  /**
   * `Math.round(n / d)` for non-negative `n` and positive `d`: the integer
   * nearest to n/d, halves rounded up.
   */
  function RoundRatio(n: nat, d: nat): (r: int)
    requires d > 0
    ensures 2 * n - d < 2 * d * r <= 2 * n + d
  {
    (2 * n + d) / (2 * d)
  }

  /**
   * Percentage of completed tasks finished on time, rounded; 100 when no
   * task is completed.
   */
  function Precision(ts: seq<Task>): (r: int)
    ensures 0 <= r <= 100
    ensures CountCompleted(ts) == 0 ==> r == 100
    ensures CountOnTime(ts) == CountCompleted(ts) ==> r == 100
    ensures CountOnTime(ts) == 0 < CountCompleted(ts) ==> r == 0
    ensures CountCompleted(ts) > 0 ==>
      2 * 100 * CountOnTime(ts) - CountCompleted(ts) < 2 * CountCompleted(ts) * r <= 2 * 100 * CountOnTime(ts) + CountCompleted(ts)
  {
    var c := CountCompleted(ts);
    var on := CountOnTime(ts);
    if c > 0 then
      var r := RoundRatio(on * 100, c);
      PrecisionBounds(on, c, r);
      r
    else 100
  }

  lemma PrecisionBounds(on: nat, c: nat, r: int)
    requires on <= c && c > 0
    requires 2 * (on * 100) - c < 2 * c * r <= 2 * (on * 100) + c
    ensures 0 <= r <= 100
    ensures on == c ==> r == 100
    ensures on == 0 ==> r == 0
  {
    if r < 0 {
      MulMono(2 * c, r, -1);
    }
    if r > 100 {
      MulMono(2 * c, 101, r);
    }
    if on == c && r < 100 {
      MulMono(2 * c, r, 99);
    }
    if on == 0 && r > 0 {
      MulMono(2 * c, 1, r);
    }
  }

  /** Multiplying by a non-negative factor preserves `<=`. */
  lemma {:induction false} MulMono(k: nat, a: int, b: int)
    requires a <= b
    ensures k * a <= k * b
  {
    if k > 0 {
      MulMono(k - 1, a, b);
    }
  }
}
