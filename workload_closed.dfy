/** The sweep as evidently intended: when the assignee timeline runs out
    inside a window, the rest of the window belongs to whoever the issue was
    last assigned to (the `to` of the last assignee entry). The sweep of
    `Workload` drops that rest; this module shows an issue where it does and
    proves that the corrected sweep shares out every closed window exactly. */
module ClosedWorkload {
  import opened Jira
  import opened Workload
  import opened WorkloadFacts

  /** One window [start, end) as in `Workload.SweepWindow`, except that a
      window the assignee entries do not reach to the end credits its rest to
      the last assignee. */
  function SweepWindowClosed(assignees: seq<Transition>, cursor: nat, start: Time, end: Time, scores: Option<Scores>): (r: Sweep)
    requires cursor <= |assignees|
    ensures cursor <= r.cursor <= |assignees|
    decreases |assignees| - cursor
  {
    if cursor == |assignees| then
      if assignees == [] then Sweep(cursor, scores)
      else Sweep(cursor, Some(Accrue(scores, assignees[|assignees| - 1].to, end - start)))
    else
      var t := assignees[cursor];
      if t.date < start then SweepWindowClosed(assignees, cursor + 1, start, end, scores)
      else if t.date < end then SweepWindowClosed(assignees, cursor + 1, t.date, end, Some(Accrue(scores, t.from, t.date - start)))
      else Sweep(cursor, Some(Accrue(scores, t.from, end - start)))
  }

  function SweepWindowsClosed(statuses: seq<Transition>, assignees: seq<Transition>, exits: seq<nat>, st: Sweep): (r: Sweep)
    requires forall k | 0 <= k < |exits| :: exits[k] < |statuses|
    requires st.cursor <= |assignees|
    ensures st.cursor <= r.cursor <= |assignees|
  {
    if exits == [] then st
    else
      var i := exits[0];
      SweepWindowsClosed(statuses, assignees, exits[1..],
        SweepWindowClosed(assignees, st.cursor, WindowStart(statuses, i), statuses[i].date, st.scores))
  }

  function IssueWorkloadClosed(t: Timelines, target: Id): Option<Scores> {
    SweepWindowsClosed(t.statuses, t.assignees, Exits(t.statuses, target), Sweep(0, None)).scores
  }

  /** Where the source's window ends at an assignee entry, the corrected
      window gives the same cursor and scores. */
  lemma {:induction false} ClosedAgreesOnBreak(assignees: seq<Transition>, cursor: nat, start: Time, end: Time, scores: Option<Scores>)
    requires cursor <= |assignees|
    requires SweepWindow(assignees, cursor, start, end, scores).cursor < |assignees|
    ensures SweepWindowClosed(assignees, cursor, start, end, scores) == SweepWindow(assignees, cursor, start, end, scores)
    decreases |assignees| - cursor
  {
    var t := assignees[cursor];
    if t.date < start {
      ClosedAgreesOnBreak(assignees, cursor + 1, start, end, scores);
    } else if t.date < end {
      ClosedAgreesOnBreak(assignees, cursor + 1, t.date, end, Some(Accrue(scores, t.from, t.date - start)));
    }
  }

  /** Window completeness: with any assignee history at all, the corrected
      window credits exactly its length, neither more nor less. */
  lemma {:induction false} ClosedWindowComplete(assignees: seq<Transition>, cursor: nat, start: Time, end: Time, scores: Option<Scores>)
    requires cursor <= |assignees| && assignees != []
    ensures TotalOf(SweepWindowClosed(assignees, cursor, start, end, scores).scores) == TotalOf(scores) + (end - start)
    decreases |assignees| - cursor
  {
    var t := assignees[if cursor == |assignees| then |assignees| - 1 else cursor];
    if cursor == |assignees| {
      TotalAccrue(scores, t.to, end - start);
    } else if t.date < start {
      ClosedWindowComplete(assignees, cursor + 1, start, end, scores);
    } else if t.date < end {
      TotalAccrue(scores, t.from, t.date - start);
      ClosedWindowComplete(assignees, cursor + 1, t.date, end, Some(Accrue(scores, t.from, t.date - start)));
    } else {
      TotalAccrue(scores, t.from, end - start);
    }
  }

  /** The corrected window credits nobody a negative amount. */
  lemma {:induction false} ClosedWindowNonNegative(assignees: seq<Transition>, cursor: nat, start: Time, end: Time, scores: Option<Scores>)
    requires cursor <= |assignees|
    requires start <= end && NonNegative(scores)
    ensures NonNegative(SweepWindowClosed(assignees, cursor, start, end, scores).scores)
    decreases |assignees| - cursor
  {
    if cursor < |assignees| {
      var t := assignees[cursor];
      if t.date < start {
        ClosedWindowNonNegative(assignees, cursor + 1, start, end, scores);
      } else if t.date < end {
        ClosedWindowNonNegative(assignees, cursor + 1, t.date, end, Some(Accrue(scores, t.from, t.date - start)));
      }
    }
  }

  lemma {:induction false} ClosedWindowsComplete(statuses: seq<Transition>, assignees: seq<Transition>, exits: seq<nat>, st: Sweep)
    requires forall k | 0 <= k < |exits| :: exits[k] < |statuses|
    requires st.cursor <= |assignees| && assignees != []
    ensures TotalOf(SweepWindowsClosed(statuses, assignees, exits, st).scores) == TotalOf(st.scores) + Span(statuses, exits)
  {
    if exits != [] {
      var i := exits[0];
      ClosedWindowComplete(assignees, st.cursor, WindowStart(statuses, i), statuses[i].date, st.scores);
      ClosedWindowsComplete(statuses, assignees, exits[1..],
        SweepWindowClosed(assignees, st.cursor, WindowStart(statuses, i), statuses[i].date, st.scores));
    }
  }

  lemma {:induction false} ClosedWindowsNonNegative(statuses: seq<Transition>, assignees: seq<Transition>, exits: seq<nat>, st: Sweep)
    requires forall k | 0 <= k < |exits| :: 0 < exits[k] < |statuses|
    requires Ascending(statuses)
    requires st.cursor <= |assignees| && NonNegative(st.scores)
    ensures NonNegative(SweepWindowsClosed(statuses, assignees, exits, st).scores)
  {
    if exits != [] {
      var i := exits[0];
      assert statuses[i - 1].date <= statuses[i].date;
      ClosedWindowNonNegative(assignees, st.cursor, WindowStart(statuses, i), statuses[i].date, st.scores);
      ClosedWindowsNonNegative(statuses, assignees, exits[1..],
        SweepWindowClosed(assignees, st.cursor, WindowStart(statuses, i), statuses[i].date, st.scores));
    }
  }

  /** For every issue with an assignee timeline, the corrected scores add up
      to exactly the time the issue spent in closed stays in the target
      status: no stay is counted twice, none is lost, and a stay that has not
      ended is not counted. On an ordered status timeline no score is
      negative. */
  lemma IssueWorkloadClosedComplete(t: Timelines, target: Id)
    requires t.assignees != []
    ensures TotalOf(IssueWorkloadClosed(t, target)) == Span(t.statuses, Exits(t.statuses, target))
    ensures OrderedStatuses(t.statuses) ==> NonNegative(IssueWorkloadClosed(t, target))
  {
    var exits := Exits(t.statuses, target);
    ClosedWindowsComplete(t.statuses, t.assignees, exits, Sweep(0, None));
    if OrderedStatuses(t.statuses) {
      forall k | 0 <= k < |exits| ensures 0 < exits[k] {
        assert t.statuses[exits[k]].from == Some(target);
      }
      ClosedWindowsNonNegative(t.statuses, t.assignees, exits, Sweep(0, None));
    }
  }

  /** An issue enters the target status "dev" at 10 and leaves it at 30; Ann
      holds it until 20, then Bob. */
  function ReassignedMidWindow(): Timelines {
    Timelines(
      [Transition(0, None, Some("open")), Transition(10, Some("open"), Some("dev")), Transition(30, Some("dev"), Some("open"))],
      [Transition(0, None, Some("ann")), Transition(20, Some("ann"), Some("bob"))])
  }

  /** The issue leaves "dev" once, at its third status entry, after 20
      seconds in it. */
  lemma ReassignedMidWindowExits()
    ensures Exits(ReassignedMidWindow().statuses, "dev") == [2]
    ensures Span(ReassignedMidWindow().statuses, [2]) == 20
  {
    var statuses := ReassignedMidWindow().statuses;
    assert statuses[..2][..1] == statuses[..1];
    assert Exits(statuses[..1][..0], "dev") == [];
    assert Exits(statuses[..1], "dev") == [];
    assert Exits(statuses[..2], "dev") == [];
  }

  /** The source's sweep credits Ann's 10 seconds and drops Bob's 10 seconds,
      although the window is 20 seconds long. */
  lemma ReassignedMidWindowLosesTail()
    ensures IssueWorkload(ReassignedMidWindow(), "dev") == Some(map[Some("ann") := 10])
  {
    var t := ReassignedMidWindow();
    ReassignedMidWindowExits();
    var first := Accrue(None, Some("ann"), 10);
    assert first == map[Some("ann") := 10];
    assert SweepWindow(t.assignees, 0, 10, 30, None) == Sweep(2, Some(first));
  }

  /** The corrected sweep credits both of them. */
  lemma ReassignedMidWindowCreditsBoth()
    ensures IssueWorkloadClosed(ReassignedMidWindow(), "dev") == Some(map[Some("ann") := 10, Some("bob") := 10])
  {
    var t := ReassignedMidWindow();
    ReassignedMidWindowExits();
    var first := Accrue(None, Some("ann"), 10);
    var both := Accrue(Some(first), Some("bob"), 10);
    assert first == map[Some("ann") := 10];
    assert both == map[Some("ann") := 10, Some("bob") := 10];
    assert SweepWindowClosed(t.assignees, 2, 20, 30, Some(first)) == Sweep(2, Some(both));
    assert SweepWindowClosed(t.assignees, 1, 10, 30, None) == SweepWindowClosed(t.assignees, 2, 20, 30, Some(first));
    assert SweepWindowClosed(t.assignees, 0, 10, 30, None) == SweepWindowClosed(t.assignees, 1, 10, 30, None);
    assert WindowStart(t.statuses, 2) == 10;
    assert SweepWindowsClosed(t.statuses, t.assignees, [2], Sweep(0, None)) == Sweep(2, Some(both));
  }
}
