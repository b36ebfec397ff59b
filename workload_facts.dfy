/** What the sweep of `Workload` guarantees: the cursor only moves forward,
    credits are never negative, a window that ends at an assignee entry is
    shared out exactly, and the time of an issue that never leaves the target
    status is not counted. */
module WorkloadFacts {
  import opened Jira
  import opened Workload

  /** Some key of a non-empty map. */
  ghost function Pick(m: Scores): (k: Option<Id>)
    requires m != map[]
    ensures k in m
  {
    var k :| k in m; k
  }

  /** The sum of all scores. */
  ghost function Total(m: Scores): int
    decreases m.Keys
  {
    if m == map[] then 0
    else
      var k := Pick(m);
      assert (m - {k}).Keys < m.Keys;
      m[k] + Total(m - {k})
  }

  ghost function TotalOf(scores: Option<Scores>): int {
    if scores.Some? then Total(scores.value) else 0
  }

  /** Every score is at least zero. */
  ghost predicate NonNegative(scores: Option<Scores>) {
    scores.Some? ==> forall k | k in scores.value :: scores.value[k] >= 0
  }

  /** The summed length of the windows closed by `exits`. */
  function Span(statuses: seq<Transition>, exits: seq<nat>): int
    requires forall k | 0 <= k < |exits| :: exits[k] < |statuses|
  {
    if exits == [] then 0
    else statuses[exits[0]].date - WindowStart(statuses, exits[0]) + Span(statuses, exits[1..])
  }

  /** The sum does not depend on the key taken out first. */
  lemma {:induction false} TotalRemove(m: Scores, k: Option<Id>)
    requires k in m
    ensures Total(m) == m[k] + Total(m - {k})
    decreases m.Keys
  {
    var j := Pick(m);
    if j != k {
      assert (m - {j}).Keys < m.Keys && (m - {k}).Keys < m.Keys;
      TotalRemove(m - {j}, k);
      TotalRemove(m - {k}, j);
      assert m - {j} - {k} == m - {k} - {j};
    }
  }

  /** Crediting `d` seconds raises the sum by exactly `d`. */
  lemma TotalAccrue(scores: Option<Scores>, who: Option<Id>, d: int)
    ensures TotalOf(Some(Accrue(scores, who, d))) == TotalOf(scores) + d
  {
    var m := if scores.Some? then scores.value else map[];
    var r := Accrue(scores, who, d);
    TotalRemove(r, who);
    if who in m {
      TotalRemove(m, who);
      assert r - {who} == m - {who};
    } else {
      assert r - {who} == m;
    }
  }

  /** The seconds one window of the sweep credits in all, whoever gets them. */
  function Credited(assignees: seq<Transition>, cursor: nat, start: Time, end: Time): int
    requires cursor <= |assignees|
    decreases |assignees| - cursor
  {
    if cursor == |assignees| then 0
    else
      var t := assignees[cursor];
      if t.date < start then Credited(assignees, cursor + 1, start, end)
      else if t.date < end then (t.date - start) + Credited(assignees, cursor + 1, t.date, end)
      else end - start
  }

  /** A window raises the sum of the scores by what it credits. */
  lemma {:induction false} SweepTotal(assignees: seq<Transition>, cursor: nat, start: Time, end: Time, scores: Option<Scores>)
    requires cursor <= |assignees|
    ensures TotalOf(SweepWindow(assignees, cursor, start, end, scores).scores) == TotalOf(scores) + Credited(assignees, cursor, start, end)
    decreases |assignees| - cursor
  {
    if cursor < |assignees| {
      var t := assignees[cursor];
      if t.date < start {
        SweepTotal(assignees, cursor + 1, start, end, scores);
      } else if t.date < end {
        TotalAccrue(scores, t.from, t.date - start);
        SweepTotal(assignees, cursor + 1, t.date, end, Some(Accrue(scores, t.from, t.date - start)));
      } else {
        TotalAccrue(scores, t.from, end - start);
      }
    }
  }

  /** A window that ends at an assignee entry credits exactly its length. */
  lemma {:induction false} CreditedOnBreak(assignees: seq<Transition>, cursor: nat, start: Time, end: Time, scores: Option<Scores>)
    requires cursor <= |assignees|
    requires SweepWindow(assignees, cursor, start, end, scores).cursor < |assignees|
    ensures Credited(assignees, cursor, start, end) == end - start
    decreases |assignees| - cursor
  {
    var t := assignees[cursor];
    if t.date < start {
      CreditedOnBreak(assignees, cursor + 1, start, end, scores);
    } else if t.date < end {
      CreditedOnBreak(assignees, cursor + 1, t.date, end, Some(Accrue(scores, t.from, t.date - start)));
    }
  }

  /** When the window ends at an assignee entry (the sweep stops before the
      end of the assignee timeline) its credits add up to exactly its length. */
  lemma WindowTotal(assignees: seq<Transition>, cursor: nat, start: Time, end: Time, scores: Option<Scores>)
    requires cursor <= |assignees|
    requires SweepWindow(assignees, cursor, start, end, scores).cursor < |assignees|
    ensures TotalOf(SweepWindow(assignees, cursor, start, end, scores).scores) == TotalOf(scores) + (end - start)
  {
    SweepTotal(assignees, cursor, start, end, scores);
    CreditedOnBreak(assignees, cursor, start, end, scores);
  }

  /** A window no shorter than zero credits between zero and its length. */
  lemma {:induction false} CreditedBounds(assignees: seq<Transition>, cursor: nat, start: Time, end: Time)
    requires cursor <= |assignees| && start <= end
    ensures 0 <= Credited(assignees, cursor, start, end) <= end - start
    decreases |assignees| - cursor
  {
    if cursor < |assignees| {
      var t := assignees[cursor];
      if t.date < start {
        CreditedBounds(assignees, cursor + 1, start, end);
      } else if t.date < end {
        CreditedBounds(assignees, cursor + 1, t.date, end);
      }
    }
  }

  /** A window no shorter than zero credits nobody a negative amount. */
  lemma {:induction false} WindowNonNegative(assignees: seq<Transition>, cursor: nat, start: Time, end: Time, scores: Option<Scores>)
    requires cursor <= |assignees|
    requires start <= end && NonNegative(scores)
    ensures NonNegative(SweepWindow(assignees, cursor, start, end, scores).scores)
    decreases |assignees| - cursor
  {
    if cursor < |assignees| {
      var t := assignees[cursor];
      if t.date < start {
        WindowNonNegative(assignees, cursor + 1, start, end, scores);
      } else if t.date < end {
        WindowNonNegative(assignees, cursor + 1, t.date, end, Some(Accrue(scores, t.from, t.date - start)));
      }
    }
  }

  /** Every assignee credited in a window is the `from` of an assignee entry:
      the holder who gave the issue up at that entry. */
  lemma {:induction false} WindowCreditsHolders(assignees: seq<Transition>, cursor: nat, start: Time, end: Time, scores: Option<Scores>)
    requires cursor <= |assignees|
    ensures var r := SweepWindow(assignees, cursor, start, end, scores).scores;
      r.Some? ==> forall k | k in r.value ::
        (scores.Some? && k in scores.value) || exists j | cursor <= j < |assignees| :: assignees[j].from == k
    decreases |assignees| - cursor
  {
    if cursor < |assignees| {
      var t := assignees[cursor];
      if t.date < start {
        WindowCreditsHolders(assignees, cursor + 1, start, end, scores);
      } else if t.date < end {
        WindowCreditsHolders(assignees, cursor + 1, t.date, end, Some(Accrue(scores, t.from, t.date - start)));
      }
    }
  }

  /** Windows of a status timeline in date order, whose first entry is the
      creation entry: every window starts no later than it ends. */
  ghost predicate OrderedStatuses(statuses: seq<Transition>) {
    Ascending(statuses) && (statuses != [] ==> statuses[0].from == None)
  }

  /** Over all windows of an ordered status timeline the issue's scores stay
      non-negative, and their sum grows by no more than the summed length of
      the windows. */
  lemma {:induction false} WindowsBounds(statuses: seq<Transition>, assignees: seq<Transition>, exits: seq<nat>, st: Sweep)
    requires forall k | 0 <= k < |exits| :: 0 < exits[k] < |statuses|
    requires Ascending(statuses)
    requires st.cursor <= |assignees| && NonNegative(st.scores)
    ensures var r := SweepWindows(statuses, assignees, exits, st);
      NonNegative(r.scores) && TotalOf(st.scores) <= TotalOf(r.scores) <= TotalOf(st.scores) + Span(statuses, exits)
  {
    if exits != [] {
      var i := exits[0];
      assert statuses[i - 1].date <= statuses[i].date;
      var next := SweepWindow(assignees, st.cursor, WindowStart(statuses, i), statuses[i].date, st.scores);
      SweepTotal(assignees, st.cursor, WindowStart(statuses, i), statuses[i].date, st.scores);
      CreditedBounds(assignees, st.cursor, WindowStart(statuses, i), statuses[i].date);
      WindowNonNegative(assignees, st.cursor, WindowStart(statuses, i), statuses[i].date, st.scores);
      WindowsBounds(statuses, assignees, exits[1..], next);
    }
  }

  /** For an issue whose status timeline is in date order and starts with the
      creation entry, every score is non-negative and all scores together
      cover no more time than the issue spent in closed stays in the target
      status; a stay that has not ended contributes nothing. */
  lemma IssueBounds(t: Timelines, target: Id)
    requires OrderedStatuses(t.statuses)
    ensures NonNegative(IssueWorkload(t, target))
    ensures 0 <= TotalOf(IssueWorkload(t, target)) <= Span(t.statuses, Exits(t.statuses, target))
  {
    var exits := Exits(t.statuses, target);
    forall k | 0 <= k < |exits| ensures 0 < exits[k] {
      assert t.statuses[exits[k]].from == Some(target);
    }
    WindowsBounds(t.statuses, t.assignees, exits, Sweep(0, None));
  }

  /** An issue that never leaves the target status gets no entry. */
  lemma NoExitNoEntry(t: Timelines, target: Id)
    requires forall i | 0 <= i < |t.statuses| :: t.statuses[i].from != Some(target)
    ensures IssueWorkload(t, target) == None
  {
  }
}
