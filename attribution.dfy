/** An independent account of what the sweep credits. The assignee timeline
    cuts time into periods: the period ending at entry j runs from entry j-1
    (from the beginning of time for j = 0) up to entry j and is held by that
    entry's `from`; after the last entry comes an open period held by its
    `to`. On timelines in date order, an assignee's score is the time that
    the closed windows share with the periods that assignee held; the
    source's sweep leaves out the open last period, the corrected one does
    not. */
module Attribution {
  import opened Jira
  import opened Workload
  import opened WorkloadFacts
  import opened ClosedWorkload

  function Max(a: int, b: int): int { if a < b then b else a }
  function Min(a: int, b: int): int { if a < b then a else b }

  /** The score of `who`, zero when there is none. */
  function Get(scores: Option<Scores>, who: Option<Id>): int {
    if scores.Some? && who in scores.value then scores.value[who] else 0
  }

  /** Seconds of [s, e) inside the period that ends at assignee entry `j`. */
  function Held(assignees: seq<Transition>, j: nat, s: Time, e: Time): (d: int)
    requires j < |assignees|
    ensures d >= 0
  {
    var lo := if j == 0 then s else Max(assignees[j - 1].date, s);
    var hi := Min(assignees[j].date, e);
    if lo < hi then hi - lo else 0
  }

  /** Seconds of [s, e) inside the open period after the last assignee entry. */
  function TailHeld(assignees: seq<Transition>, s: Time, e: Time): (d: int)
    requires assignees != []
    ensures d >= 0
  {
    var lo := Max(assignees[|assignees| - 1].date, s);
    if lo < e then e - lo else 0
  }

  /** Seconds of [s, e) inside the periods ending at entries `c` onwards that
      `who` held. */
  function ShareFrom(assignees: seq<Transition>, c: nat, s: Time, e: Time, who: Option<Id>): int
    decreases |assignees| - c
  {
    if c >= |assignees| then 0
    else (if assignees[c].from == who then Held(assignees, c, s, e) else 0) + ShareFrom(assignees, c + 1, s, e, who)
  }

  /** Seconds of [s, e) inside the open last period, if `who` held it. */
  function TailShare(assignees: seq<Transition>, s: Time, e: Time, who: Option<Id>): int
    requires assignees != []
  {
    if assignees[|assignees| - 1].to == who then TailHeld(assignees, s, e) else 0
  }

  /** Where a window starts does not matter to the periods that begin at or
      after both candidate starts. */
  lemma {:induction false} ShareShift(assignees: seq<Transition>, c: nat, s: Time, s': Time, e: Time, who: Option<Id>)
    requires Ascending(assignees) && c < |assignees|
    requires s <= assignees[c].date && s' <= assignees[c].date
    ensures ShareFrom(assignees, c + 1, s, e, who) == ShareFrom(assignees, c + 1, s', e, who)
    decreases |assignees| - c
  {
    if c + 1 < |assignees| {
      assert assignees[c].date <= assignees[c + 1].date;
      ShareShift(assignees, c + 1, s, s', e, who);
    }
  }

  /** Periods that begin at or after the window's end share nothing with it. */
  lemma {:induction false} ShareAfterEnd(assignees: seq<Transition>, c: nat, s: Time, e: Time, who: Option<Id>)
    requires Ascending(assignees) && c < |assignees|
    requires assignees[c].date >= e
    ensures ShareFrom(assignees, c + 1, s, e, who) == 0
    decreases |assignees| - c
  {
    if c + 1 < |assignees| {
      assert assignees[c].date <= assignees[c + 1].date;
      ShareAfterEnd(assignees, c + 1, s, e, who);
    }
  }

  /** Periods that end no later than the window's start share nothing with it. */
  lemma {:induction false} ShareBeforeStart(assignees: seq<Transition>, k: nat, c: nat, s: Time, e: Time, who: Option<Id>)
    requires Ascending(assignees) && k <= c <= |assignees|
    requires c == 0 || assignees[c - 1].date <= s
    ensures ShareFrom(assignees, k, s, e, who) == ShareFrom(assignees, c, s, e, who)
    decreases c - k
  {
    if k < c {
      assert assignees[k].date <= assignees[c - 1].date;
      ShareBeforeStart(assignees, k + 1, c, s, e, who);
    }
  }

  /** Crediting changes only the score of the one credited. */
  lemma GetAccrue(scores: Option<Scores>, credited: Option<Id>, d: int, who: Option<Id>)
    ensures Get(Some(Accrue(scores, credited, d)), who) == Get(scores, who) + (if credited == who then d else 0)
  {
  }

  /** A window leaves the cursor behind entries dated no later than its end. */
  lemma {:induction false} WindowCursor(assignees: seq<Transition>, c: nat, start: Time, end: Time, scores: Option<Scores>)
    requires c <= |assignees| && start <= end
    requires c == 0 || assignees[c - 1].date <= start
    ensures var r := SweepWindow(assignees, c, start, end, scores);
      r.cursor == 0 || assignees[r.cursor - 1].date <= end
    decreases |assignees| - c
  {
    if c < |assignees| {
      var t := assignees[c];
      if t.date < start {
        WindowCursor(assignees, c + 1, start, end, scores);
      } else if t.date < end {
        WindowCursor(assignees, c + 1, t.date, end, Some(Accrue(scores, t.from, t.date - start)));
      }
    }
  }

  /** The same for the corrected sweep. */
  lemma {:induction false} WindowCursorClosed(assignees: seq<Transition>, c: nat, start: Time, end: Time, scores: Option<Scores>)
    requires c <= |assignees| && start <= end
    requires c == 0 || assignees[c - 1].date <= start
    ensures var r := SweepWindowClosed(assignees, c, start, end, scores);
      r.cursor == 0 || assignees[r.cursor - 1].date <= end
    decreases |assignees| - c
  {
    if c < |assignees| {
      var t := assignees[c];
      if t.date < start {
        WindowCursorClosed(assignees, c + 1, start, end, scores);
      } else if t.date < end {
        WindowCursorClosed(assignees, c + 1, t.date, end, Some(Accrue(scores, t.from, t.date - start)));
      }
    }
  }

  /** One window of the source's sweep credits each assignee exactly the time
      the window shares with the periods ending at an assignee entry that the
      assignee held. */
  lemma {:induction false} WindowShare(assignees: seq<Transition>, c: nat, start: Time, end: Time, scores: Option<Scores>, who: Option<Id>)
    requires Ascending(assignees) && c <= |assignees| && start <= end
    requires c == 0 || assignees[c - 1].date <= start
    ensures Get(SweepWindow(assignees, c, start, end, scores).scores, who)
         == Get(scores, who) + ShareFrom(assignees, c, start, end, who)
    decreases |assignees| - c
  {
    if c < |assignees| {
      var t := assignees[c];
      if t.date < start {
        WindowShare(assignees, c + 1, start, end, scores, who);
        SkipShare(assignees, c, start, end, scores, who);
      } else if t.date < end {
        WindowShare(assignees, c + 1, t.date, end, Some(Accrue(scores, t.from, t.date - start)), who);
        ShareShift(assignees, c, start, t.date, end, who);
        CreditShare(assignees, c, start, end, scores, who);
      } else {
        ShareAfterEnd(assignees, c, start, end, who);
        BreakShare(assignees, c, start, end, scores, who);
      }
    }
  }

  /** The step of `WindowShare` past an entry dated before the window. */
  lemma SkipShare(assignees: seq<Transition>, c: nat, start: Time, end: Time, scores: Option<Scores>, who: Option<Id>)
    requires c < |assignees| && start <= end && assignees[c].date < start
    requires Get(SweepWindow(assignees, c + 1, start, end, scores).scores, who)
         == Get(scores, who) + ShareFrom(assignees, c + 1, start, end, who)
    requires c == 0 || assignees[c - 1].date <= start
    ensures Get(SweepWindow(assignees, c, start, end, scores).scores, who)
         == Get(scores, who) + ShareFrom(assignees, c, start, end, who)
  {
  }

  /** The step of `WindowShare` past an entry inside the window: its `from`
      is credited up to the entry, and the window goes on from there. */
  lemma CreditShare(assignees: seq<Transition>, c: nat, start: Time, end: Time, scores: Option<Scores>, who: Option<Id>)
    requires c < |assignees| && start <= assignees[c].date < end
    requires c == 0 || assignees[c - 1].date <= start
    requires ShareFrom(assignees, c + 1, start, end, who) == ShareFrom(assignees, c + 1, assignees[c].date, end, who)
    requires Get(SweepWindow(assignees, c + 1, assignees[c].date, end, Some(Accrue(scores, assignees[c].from, assignees[c].date - start))).scores, who)
         == Get(Some(Accrue(scores, assignees[c].from, assignees[c].date - start)), who) + ShareFrom(assignees, c + 1, assignees[c].date, end, who)
    ensures Get(SweepWindow(assignees, c, start, end, scores).scores, who)
         == Get(scores, who) + ShareFrom(assignees, c, start, end, who)
  {
    GetAccrue(scores, assignees[c].from, assignees[c].date - start, who);
  }

  /** The step of `WindowShare` at an entry dated at or after the window's
      end: its `from` is credited with the rest of the window. */
  lemma BreakShare(assignees: seq<Transition>, c: nat, start: Time, end: Time, scores: Option<Scores>, who: Option<Id>)
    requires c < |assignees| && start <= end <= assignees[c].date
    requires c == 0 || assignees[c - 1].date <= start
    requires ShareFrom(assignees, c + 1, start, end, who) == 0
    ensures Get(SweepWindow(assignees, c, start, end, scores).scores, who)
         == Get(scores, who) + ShareFrom(assignees, c, start, end, who)
  {
    GetAccrue(scores, assignees[c].from, end - start, who);
  }

  /** One window of the corrected sweep also credits the open last period to
      whoever holds it. */
  lemma {:induction false} WindowShareClosed(assignees: seq<Transition>, c: nat, start: Time, end: Time, scores: Option<Scores>, who: Option<Id>)
    requires Ascending(assignees) && assignees != [] && c <= |assignees| && start <= end
    requires c == 0 || assignees[c - 1].date <= start
    ensures Get(SweepWindowClosed(assignees, c, start, end, scores).scores, who)
         == Get(scores, who) + ShareFrom(assignees, c, start, end, who) + TailShare(assignees, start, end, who)
    decreases |assignees| - c
  {
    if c == |assignees| {
      GetAccrue(scores, assignees[|assignees| - 1].to, end - start, who);
    } else {
      var t := assignees[c];
      assert t.date <= assignees[|assignees| - 1].date;
      if t.date < start {
        WindowShareClosed(assignees, c + 1, start, end, scores, who);
        SkipShareClosed(assignees, c, start, end, scores, who);
      } else if t.date < end {
        WindowShareClosed(assignees, c + 1, t.date, end, Some(Accrue(scores, t.from, t.date - start)), who);
        ShareShift(assignees, c, start, t.date, end, who);
        CreditShareClosed(assignees, c, start, end, scores, who);
      } else {
        ShareAfterEnd(assignees, c, start, end, who);
        BreakShareClosed(assignees, c, start, end, scores, who);
      }
    }
  }

  /** The step of `WindowShareClosed` past an entry dated before the window. */
  lemma SkipShareClosed(assignees: seq<Transition>, c: nat, start: Time, end: Time, scores: Option<Scores>, who: Option<Id>)
    requires c < |assignees| && start <= end && assignees[c].date < start
    requires c == 0 || assignees[c - 1].date <= start
    requires Get(SweepWindowClosed(assignees, c + 1, start, end, scores).scores, who)
         == Get(scores, who) + ShareFrom(assignees, c + 1, start, end, who) + TailShare(assignees, start, end, who)
    ensures Get(SweepWindowClosed(assignees, c, start, end, scores).scores, who)
         == Get(scores, who) + ShareFrom(assignees, c, start, end, who) + TailShare(assignees, start, end, who)
  {
  }

  /** The step of `WindowShareClosed` past an entry inside the window; the
      open last period begins at or after the entry. */
  lemma CreditShareClosed(assignees: seq<Transition>, c: nat, start: Time, end: Time, scores: Option<Scores>, who: Option<Id>)
    requires c < |assignees| && start <= assignees[c].date < end
    requires assignees[c].date <= assignees[|assignees| - 1].date
    requires c == 0 || assignees[c - 1].date <= start
    requires ShareFrom(assignees, c + 1, start, end, who) == ShareFrom(assignees, c + 1, assignees[c].date, end, who)
    requires Get(SweepWindowClosed(assignees, c + 1, assignees[c].date, end, Some(Accrue(scores, assignees[c].from, assignees[c].date - start))).scores, who)
         == Get(Some(Accrue(scores, assignees[c].from, assignees[c].date - start)), who)
            + ShareFrom(assignees, c + 1, assignees[c].date, end, who) + TailShare(assignees, assignees[c].date, end, who)
    ensures Get(SweepWindowClosed(assignees, c, start, end, scores).scores, who)
         == Get(scores, who) + ShareFrom(assignees, c, start, end, who) + TailShare(assignees, start, end, who)
  {
    GetAccrue(scores, assignees[c].from, assignees[c].date - start, who);
  }

  /** The step of `WindowShareClosed` at an entry dated at or after the
      window's end; the open last period begins after the window. */
  lemma BreakShareClosed(assignees: seq<Transition>, c: nat, start: Time, end: Time, scores: Option<Scores>, who: Option<Id>)
    requires c < |assignees| && start <= end <= assignees[c].date
    requires assignees[c].date <= assignees[|assignees| - 1].date
    requires c == 0 || assignees[c - 1].date <= start
    requires ShareFrom(assignees, c + 1, start, end, who) == 0
    ensures Get(SweepWindowClosed(assignees, c, start, end, scores).scores, who)
         == Get(scores, who) + ShareFrom(assignees, c, start, end, who) + TailShare(assignees, start, end, who)
  {
    GetAccrue(scores, assignees[c].from, end - start, who);
  }

  /** What the windows closed by `exits` share with the periods ending at an
      assignee entry that `who` held. */
  function WindowsShare(statuses: seq<Transition>, assignees: seq<Transition>, exits: seq<nat>, who: Option<Id>): int
    requires forall k | 0 <= k < |exits| :: exits[k] < |statuses|
  {
    if exits == [] then 0
    else ShareFrom(assignees, 0, WindowStart(statuses, exits[0]), statuses[exits[0]].date, who)
         + WindowsShare(statuses, assignees, exits[1..], who)
  }

  /** What the windows closed by `exits` share with the open last period, if
      `who` held it. */
  function WindowsTail(statuses: seq<Transition>, assignees: seq<Transition>, exits: seq<nat>, who: Option<Id>): int
    requires forall k | 0 <= k < |exits| :: exits[k] < |statuses|
    requires assignees != []
  {
    if exits == [] then 0
    else TailShare(assignees, WindowStart(statuses, exits[0]), statuses[exits[0]].date, who)
         + WindowsTail(statuses, assignees, exits[1..], who)
  }

  /** Windows in date order, each starting at the status entry before its exit. */
  ghost predicate OrderedExits(statuses: seq<Transition>, exits: seq<nat>) {
    && Ascending(statuses)
    && (forall k | 0 <= k < |exits| :: 0 < exits[k] < |statuses|)
    && (forall k, l | 0 <= k < l < |exits| :: exits[k] < exits[l])
  }

  /** The first window of ordered exits is well formed. */
  lemma ExitWindow(statuses: seq<Transition>, exits: seq<nat>)
    requires OrderedExits(statuses, exits) && exits != []
    ensures 0 < exits[0] < |statuses|
    ensures WindowStart(statuses, exits[0]) == statuses[exits[0] - 1].date <= statuses[exits[0]].date
  {
  }

  /** The windows after the first of ordered exits are ordered and start no
      earlier than the first one ends. */
  lemma NextExit(statuses: seq<Transition>, exits: seq<nat>)
    requires OrderedExits(statuses, exits) && exits != []
    ensures OrderedExits(statuses, exits[1..])
    ensures |exits| > 1 ==> statuses[exits[0]].date <= WindowStart(statuses, exits[1])
  {
    if |exits| > 1 {
      assert exits[0] <= exits[1] - 1;
    }
  }

  lemma {:induction false} WindowsShareSweep(statuses: seq<Transition>, assignees: seq<Transition>, exits: seq<nat>, st: Sweep, who: Option<Id>)
    requires OrderedExits(statuses, exits) && Ascending(assignees) && st.cursor <= |assignees|
    requires exits != [] && st.cursor > 0 ==> assignees[st.cursor - 1].date <= WindowStart(statuses, exits[0])
    ensures Get(SweepWindows(statuses, assignees, exits, st).scores, who)
         == Get(st.scores, who) + WindowsShare(statuses, assignees, exits, who)
  {
    if exits != [] {
      var i := exits[0];
      var s, e := statuses[i - 1].date, statuses[i].date;
      ExitWindow(statuses, exits);
      WindowShare(assignees, st.cursor, s, e, st.scores, who);
      WindowCursor(assignees, st.cursor, s, e, st.scores);
      ShareBeforeStart(assignees, 0, st.cursor, s, e, who);
      var next := SweepWindow(assignees, st.cursor, s, e, st.scores);
      NextExit(statuses, exits);
      WindowsShareSweep(statuses, assignees, exits[1..], next, who);
    }
  }

  lemma {:induction false} WindowsShareSweepClosed(statuses: seq<Transition>, assignees: seq<Transition>, exits: seq<nat>, st: Sweep, who: Option<Id>)
    requires OrderedExits(statuses, exits) && Ascending(assignees) && assignees != [] && st.cursor <= |assignees|
    requires exits != [] && st.cursor > 0 ==> assignees[st.cursor - 1].date <= WindowStart(statuses, exits[0])
    ensures Get(SweepWindowsClosed(statuses, assignees, exits, st).scores, who)
         == Get(st.scores, who) + WindowsShare(statuses, assignees, exits, who) + WindowsTail(statuses, assignees, exits, who)
  {
    if exits != [] {
      var i := exits[0];
      var s, e := statuses[i - 1].date, statuses[i].date;
      ExitWindow(statuses, exits);
      WindowShareClosed(assignees, st.cursor, s, e, st.scores, who);
      WindowCursorClosed(assignees, st.cursor, s, e, st.scores);
      ShareBeforeStart(assignees, 0, st.cursor, s, e, who);
      var next := SweepWindowClosed(assignees, st.cursor, s, e, st.scores);
      NextExit(statuses, exits);
      WindowsShareSweepClosed(statuses, assignees, exits[1..], next, who);
    }
  }

  lemma ExitsOrdered(statuses: seq<Transition>, target: Id)
    requires OrderedStatuses(statuses)
    ensures OrderedExits(statuses, Exits(statuses, target))
  {
    var exits := Exits(statuses, target);
    forall k | 0 <= k < |exits| ensures 0 < exits[k] {
      assert statuses[exits[k]].from == Some(target);
    }
  }

  /** With both timelines in date order and the status timeline opening with
      the creation entry, the source's sweep credits each assignee (None for
      "unassigned") exactly the time the closed target-status windows share
      with the periods, ending at an assignee change, that the assignee gave
      up at that change; the period after the last change is not counted. */
  lemma IssueWorkloadShares(t: Timelines, target: Id, who: Option<Id>)
    requires OrderedStatuses(t.statuses) && Ascending(t.assignees)
    ensures Get(IssueWorkload(t, target), who) == WindowsShare(t.statuses, t.assignees, Exits(t.statuses, target), who)
  {
    ExitsOrdered(t.statuses, target);
    WindowsShareSweep(t.statuses, t.assignees, Exits(t.statuses, target), Sweep(0, None), who);
  }

  /** The corrected sweep credits the same, plus the time the windows share
      with the open period after the last change, to whoever that change
      assigned the issue to. */
  lemma IssueWorkloadClosedShares(t: Timelines, target: Id, who: Option<Id>)
    requires OrderedStatuses(t.statuses) && Ascending(t.assignees) && t.assignees != []
    ensures Get(IssueWorkloadClosed(t, target), who)
         == WindowsShare(t.statuses, t.assignees, Exits(t.statuses, target), who)
          + WindowsTail(t.statuses, t.assignees, Exits(t.statuses, target), who)
  {
    ExitsOrdered(t.statuses, target);
    WindowsShareSweepClosed(t.statuses, t.assignees, Exits(t.statuses, target), Sweep(0, None), who);
  }
}
