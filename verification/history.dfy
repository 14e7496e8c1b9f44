/**
 * The task history page: the id de-duplication applied to the stored
 * history when it is loaded, and the status label and colour shown for
 * each entry.
 */
module History {
  import opened Types
  import Scoring

  // ---------------------------------------------------------------------
  // De-duplication
  // ---------------------------------------------------------------------

  /** No two entries share an id. */
  predicate DistinctIds(s: seq<Task>) {
    forall i, j :: 0 <= i < j < |s| ==> s[i].id != s[j].id
  }

  /** `r` is `s` with some entries removed and the rest kept in order. */
  predicate SubsequenceOf(r: seq<Task>, s: seq<Task>)
    decreases |s|
  {
    if r == [] then true
    else if s == [] then false
    else (r[0] == s[0] && SubsequenceOf(r[1..], s[1..])) || SubsequenceOf(r, s[1..])
  }

  /**
   * The entries of `s` from index `from` on that pass the filter
   * `index === self.findIndex(t => t.id === task.id)`.
   */
  function KeepFirst(s: seq<Task>, from: nat): seq<Task>
    requires from <= |s|
    decreases |s| - from
  {
    if from == |s| then []
    else (if FindIndex(s, s[from].id) == from then [s[from]] else []) + KeepFirst(s, from + 1)
  }

  /** The history as the page shows it: the first entry for each id, in order. */
  function Dedup(s: seq<Task>): (r: seq<Task>)
    ensures DistinctIds(r)
    ensures SubsequenceOf(r, s)
    ensures forall k :: 0 <= k < |r| ==> 0 <= FindIndex(s, r[k].id) && r[k] == s[FindIndex(s, r[k].id)]
    ensures forall i :: 0 <= i < |s| && FindIndex(s, s[i].id) == i ==> s[i] in r
    ensures forall k1, k2 :: 0 <= k1 < k2 < |r| ==> FindIndex(s, r[k1].id) < FindIndex(s, r[k2].id)
  {
    KeepFirstFirst(s, 0);
    KeepFirstOrdered(s, 0);
    KeepFirstDistinct(s, 0);
    KeepFirstSubsequence(s, 0);
    KeepFirstComplete(s, 0);
    assert s[0..] == s;
    KeepFirst(s, 0)
  }

  /** Every kept entry is the first entry of `s` with its id, found at `from` or later. */
  lemma {:induction false} KeepFirstFirst(s: seq<Task>, from: nat)
    requires from <= |s|
    ensures forall k :: 0 <= k < |KeepFirst(s, from)| ==>
              from <= FindIndex(s, KeepFirst(s, from)[k].id) && KeepFirst(s, from)[k] == s[FindIndex(s, KeepFirst(s, from)[k].id)]
    decreases |s| - from
  {
    if from < |s| {
      KeepFirstFirst(s, from + 1);
      var rest := KeepFirst(s, from + 1);
      if FindIndex(s, s[from].id) == from {
        assert KeepFirst(s, from) == [s[from]] + rest;
        assert forall k :: 1 <= k < |rest| + 1 ==> KeepFirst(s, from)[k] == rest[k - 1];
      } else {
        assert KeepFirst(s, from) == rest;
      }
    }
  }

  /** Every entry kept from `s[from..]` is first found at `from` or later. */
  lemma {:induction false} KeepFirstFrom(s: seq<Task>, from: nat)
    requires from <= |s|
    ensures forall k :: 0 <= k < |KeepFirst(s, from)| ==> from <= FindIndex(s, KeepFirst(s, from)[k].id)
    decreases |s| - from
  {
    if from < |s| {
      KeepFirstFrom(s, from + 1);
      var rest := KeepFirst(s, from + 1);
      if FindIndex(s, s[from].id) == from {
        assert KeepFirst(s, from) == [s[from]] + rest;
      }
    }
  }

  /** Kept entries appear in the order of the positions they were kept from. */
  lemma {:induction false} KeepFirstOrdered(s: seq<Task>, from: nat)
    requires from <= |s|
    ensures forall k1, k2 :: 0 <= k1 < k2 < |KeepFirst(s, from)| ==>
              FindIndex(s, KeepFirst(s, from)[k1].id) < FindIndex(s, KeepFirst(s, from)[k2].id)
    decreases |s| - from
  {
    if from < |s| {
      KeepFirstOrdered(s, from + 1);
      var rest := KeepFirst(s, from + 1);
      var r := KeepFirst(s, from);
      if FindIndex(s, s[from].id) == from {
        KeepFirstFrom(s, from + 1);
        assert r == [s[from]] + rest;
        forall k1, k2 | 0 <= k1 < k2 < |r|
          ensures FindIndex(s, r[k1].id) < FindIndex(s, r[k2].id)
        {
          assert r[k2] == rest[k2 - 1];
          if k1 == 0 {
            assert from + 1 <= FindIndex(s, rest[k2 - 1].id);
          } else {
            assert r[k1] == rest[k1 - 1];
          }
        }
      } else {
        assert r == rest;
      }
    }
  }

  /** No two kept entries share an id. */
  lemma {:induction false} KeepFirstDistinct(s: seq<Task>, from: nat)
    requires from <= |s|
    ensures DistinctIds(KeepFirst(s, from))
    decreases |s| - from
  {
    if from < |s| && FindIndex(s, s[from].id) == from {
      KeepFirstDistinct(s, from + 1);
      KeepFirstFirst(s, from + 1);
      var rest := KeepFirst(s, from + 1);
      forall k | 0 <= k < |rest|
        ensures rest[k].id != s[from].id
      {
        assert FindIndex(s, rest[k].id) > from;
      }
      assert KeepFirst(s, from) == [s[from]] + rest;
    } else if from < |s| {
      KeepFirstDistinct(s, from + 1);
    }
  }

  /** The kept entries appear in `s[from..]` in the same order. */
  lemma {:induction false} KeepFirstSubsequence(s: seq<Task>, from: nat)
    requires from <= |s|
    ensures SubsequenceOf(KeepFirst(s, from), s[from..])
    decreases |s| - from
  {
    if from < |s| {
      KeepFirstSubsequence(s, from + 1);
      var rest := KeepFirst(s, from + 1);
      assert s[from..][1..] == s[from + 1..];
      if FindIndex(s, s[from].id) == from {
        var r := KeepFirst(s, from);
        assert r == [s[from]] + rest;
        assert r[0] == s[from..][0] && r[1..] == rest;
        assert SubsequenceOf(r[1..], s[from..][1..]);
      } else {
        assert KeepFirst(s, from) == rest;
        SubsequenceSkip(rest, s[from..]);
      }
    }
  }

  /** Every entry at or after `from` that is the first with its id is kept. */
  lemma {:induction false} KeepFirstComplete(s: seq<Task>, from: nat)
    requires from <= |s|
    ensures forall i :: from <= i < |s| && FindIndex(s, s[i].id) == i ==> s[i] in KeepFirst(s, from)
    decreases |s| - from
  {
    if from < |s| {
      KeepFirstComplete(s, from + 1);
    }
  }

  /** Dropping the first element of `s` can only keep a subsequence a subsequence. */
  lemma SubsequenceSkip(r: seq<Task>, s: seq<Task>)
    requires s != [] && SubsequenceOf(r, s[1..])
    ensures SubsequenceOf(r, s)
  {
  }

  /** Every id of the stored history is still shown, by its first entry. */
  lemma DedupKeepsEveryId(s: seq<Task>, i: int)
    requires 0 <= i < |s|
    ensures 0 <= FindIndex(s, s[i].id) <= i
    ensures s[FindIndex(s, s[i].id)] in Dedup(s)
  {
    FindIndexFound(s, s[i].id, i);
  }

  /** A history whose ids are already distinct is shown unchanged. */
  lemma {:induction false} DedupDistinct(s: seq<Task>)
    requires DistinctIds(s)
    ensures Dedup(s) == s
  {
    KeepAll(s, 0);
    assert s[0..] == s;
  }

  lemma {:induction false} KeepAll(s: seq<Task>, from: nat)
    requires from <= |s|
    requires DistinctIds(s)
    ensures KeepFirst(s, from) == s[from..]
    decreases |s| - from
  {
    if from < |s| {
      FindIndexFound(s, s[from].id, from);
      assert FindIndex(s, s[from].id) == from;
      KeepAll(s, from + 1);
      assert s[from..] == [s[from]] + s[from + 1..];
    }
  }

  /** Loading an already loaded history changes nothing. */
  lemma DedupIdempotent(s: seq<Task>)
    ensures Dedup(Dedup(s)) == Dedup(s)
  {
    DedupDistinct(Dedup(s));
  }

  /**
   * An entry prepended to the history is the one shown for its id: it comes
   * first, and no other shown entry has its id.
   */
  lemma {:induction false} PrependedEntryShown(t: Task, h: seq<Task>)
    ensures var r := Dedup([t] + h);
      |r| > 0 && r[0] == t && forall k :: 0 < k < |r| ==> r[k].id != t.id
  {
    var s := [t] + h;
    assert FindIndex(s, s[0].id) == 0;
    var r := Dedup(s);
    assert r == [t] + KeepFirst(s, 1);
  }

  // ---------------------------------------------------------------------
  // Status label and colour
  // ---------------------------------------------------------------------

  /**
   * The label of a history entry. A completed entry without a completion
   * instant compares as not on time (an invalid date compares false).
   */
  function StatusText(t: Task): (r: string)
    ensures r == "Completed on time" <==> Scoring.OnTime(t)
    ensures r == "Completed late" <==> t.status == Completed && !Scoring.OnTime(t)
    ensures r == "Overdue" <==> t.status != Completed
  {
    if t.status == Completed then
      if t.completedAt.Some? && t.completedAt.value <= t.dueDate then "Completed on time" else "Completed late"
    else "Overdue"
  }

  /** The colour class of a history entry's label. */
  function StatusColor(t: Task): (r: string)
    ensures r == "text-green-600" <==> Scoring.OnTime(t)
    ensures r == "text-yellow-600" <==> t.status == Completed && !Scoring.OnTime(t)
    ensures r == "text-red-600" <==> t.status != Completed
  {
    if t.status == Completed then
      if t.completedAt.Some? && t.completedAt.value <= t.dueDate then "text-green-600" else "text-yellow-600"
    else "text-red-600"
  }

  /** Green goes with "on time", yellow with "late" and red with "Overdue", always. */
  lemma StatusColorMatchesText(t: Task)
    ensures StatusColor(t) == "text-green-600" <==> StatusText(t) == "Completed on time"
    ensures StatusColor(t) == "text-yellow-600" <==> StatusText(t) == "Completed late"
    ensures StatusColor(t) == "text-red-600" <==> StatusText(t) == "Overdue"
  {
  }
}
