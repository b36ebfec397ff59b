/** The core sweep (`calculate_workload`): for every stay of an issue in the
    target status that ended, the time of the stay is shared out among the
    assignees who held the issue during it. */
module Workload {
  import opened Jira

  /** Seconds credited per assignee; the key None is "unassigned". */
  type Scores = map<Option<Id>, int>

  /** The state the sweep carries from one window to the next: the cursor into
      the assignee timeline and the issue's scores, None while the issue has no
      entry in the result. */
  datatype Sweep = Sweep(cursor: nat, scores: Option<Scores>)

  /** The indices, in ascending order, of the status transitions that leave
      `target`: each one closes a window. */
  function Exits(statuses: seq<Transition>, target: Id): (r: seq<nat>)
    ensures forall k | 0 <= k < |r| :: r[k] < |statuses| && statuses[r[k]].from == Some(target)
    ensures forall i | 0 <= i < |statuses| && statuses[i].from == Some(target) :: i in r
    ensures forall k, l | 0 <= k < l < |r| :: r[k] < r[l]
  {
    if statuses == [] then []
    else
      var n := |statuses| - 1;
      Exits(statuses[..n], target) + (if statuses[n].from == Some(target) then [n] else [])
  }

  /** The date of the status transition before index `i`; index -1 is the last
      element, as sequence indexing works in the source language. */
  function WindowStart(statuses: seq<Transition>, i: nat): Time
    requires i < |statuses|
  {
    statuses[if i == 0 then |statuses| - 1 else i - 1].date
  }

  /** Adds `d` seconds to `who`, creating the issue's entry and `who`'s score
      (at zero) first when they are missing. */
  function Accrue(scores: Option<Scores>, who: Option<Id>, d: int): (r: Scores)
    ensures who in r && r[who] == (if scores.Some? && who in scores.value then scores.value[who] else 0) + d
    ensures r.Keys == (if scores.Some? then scores.value.Keys else {}) + {who}
    ensures forall k | k in r && k != who :: scores.Some? && r[k] == scores.value[k]
  {
    var m := if scores.Some? then scores.value else map[];
    m[who := (if who in m then m[who] else 0) + d]
  }

  /** One window [start, end) of the sweep, from `cursor` on, as the source
      runs it: entries before `start` are skipped; an entry inside the window
      credits its `from` with the time since `start` and moves `start` up to
      it; the first entry at or after `end` credits its `from` with the rest of
      the window and is left under the cursor. */
  function SweepWindow(assignees: seq<Transition>, cursor: nat, start: Time, end: Time, scores: Option<Scores>): (r: Sweep)
    requires cursor <= |assignees|
    ensures cursor <= r.cursor <= |assignees|
    ensures r.cursor < |assignees| ==> assignees[r.cursor].date >= end && r.scores.Some?
    decreases |assignees| - cursor
  {
    if cursor == |assignees| then Sweep(cursor, scores)
    else
      var t := assignees[cursor];
      if t.date < start then SweepWindow(assignees, cursor + 1, start, end, scores)
      else if t.date < end then SweepWindow(assignees, cursor + 1, t.date, end, Some(Accrue(scores, t.from, t.date - start)))
      else Sweep(cursor, Some(Accrue(scores, t.from, end - start)))
  }

  /** The windows closed by the status indices `exits`, in order, sharing one
      cursor. */
  function SweepWindows(statuses: seq<Transition>, assignees: seq<Transition>, exits: seq<nat>, st: Sweep): (r: Sweep)
    requires forall k | 0 <= k < |exits| :: exits[k] < |statuses|
    requires st.cursor <= |assignees|
    ensures st.cursor <= r.cursor <= |assignees|
  {
    if exits == [] then st
    else
      var i := exits[0];
      SweepWindows(statuses, assignees, exits[1..],
        SweepWindow(assignees, st.cursor, WindowStart(statuses, i), statuses[i].date, st.scores))
  }

  /** The scores of one issue, or None when the issue gets no entry. The
      cursor starts at the first assignee entry. */
  function IssueWorkload(t: Timelines, target: Id): Option<Scores> {
    SweepWindows(t.statuses, t.assignees, Exits(t.statuses, target), Sweep(0, None)).scores
  }

  /** Runs one window [start, end) of the sweep from `cursor` on. */
  method RunWindow(assignees: seq<Transition>, cursor: nat, start: Time, end: Time, scores: Option<Scores>)
    returns (cursor': nat, scores': Option<Scores>)
    requires cursor <= |assignees|
    ensures Sweep(cursor', scores') == SweepWindow(assignees, cursor, start, end, scores)
  {
    cursor', scores' := cursor, scores;
    var start' := start;
    while cursor' < |assignees|
      invariant cursor <= cursor' <= |assignees|
      invariant SweepWindow(assignees, cursor', start', end, scores') == SweepWindow(assignees, cursor, start, end, scores)
    {
      var date := assignees[cursor'].date;
      var assignee := assignees[cursor'].from;
      if date < start' {
        cursor' := cursor' + 1;
        continue;
      }
      var m := if scores'.Some? then scores'.value else map[];
      if assignee !in m {
        m := m[assignee := 0];
      }
      if date < end {
        m := m[assignee := m[assignee] + (date - start')];
        assert m == Accrue(scores', assignee, date - start');
        scores' := Some(m);
        start' := date;
        cursor' := cursor' + 1;
        continue;
      }
      m := m[assignee := m[assignee] + (end - start')];
      assert m == Accrue(scores', assignee, end - start');
      scores' := Some(m);
      break;
    }
  }

  /** Runs the sweep over one issue's timelines: one window per exit from
      the target status, in order, with one cursor that is never rewound. */
  method AllocateIssue(statuses: seq<Transition>, assignees: seq<Transition>, target: Id) returns (scores: Option<Scores>)
    ensures scores == IssueWorkload(Timelines(statuses, assignees), target)
  {
    var exits := Exits(statuses, target);
    var cursor: nat := 0;
    scores := None;
    for w := 0 to |exits|
      invariant cursor <= |assignees|
      invariant SweepWindows(statuses, assignees, exits[w..], Sweep(cursor, scores))
             == SweepWindows(statuses, assignees, exits, Sweep(0, None))
    {
      var i := exits[w];
      var start := statuses[if i == 0 then |statuses| - 1 else i - 1].date;
      var end := statuses[i].date;
      assert start == WindowStart(statuses, i);
      assert exits[w..][0] == i && exits[w..][1..] == exits[w + 1..];
      cursor, scores := RunWindow(assignees, cursor, start, end, scores);
    }
  }

  /** Runs the sweep over every issue of the changelog; an issue appears in
      the result exactly when the sweep gave it an entry. */
  method CalculateWorkload(changelog: map<Id, Timelines>, target: Id) returns (perIssue: map<Id, Scores>)
    ensures forall id :: id in perIssue <==> id in changelog && IssueWorkload(changelog[id], target).Some?
    ensures forall id | id in perIssue :: perIssue[id] == IssueWorkload(changelog[id], target).value
  {
    perIssue := map[];
    var pending := changelog.Keys;
    while pending != {}
      invariant pending <= changelog.Keys
      invariant forall id :: id in perIssue <==> id in changelog && id !in pending && IssueWorkload(changelog[id], target).Some?
      invariant forall id | id in perIssue :: perIssue[id] == IssueWorkload(changelog[id], target).value
      decreases pending
    {
      var id :| id in pending;
      var fields := changelog[id];
      var scores := AllocateIssue(fields.statuses, fields.assignees, target);
      if scores.Some? {
        perIssue := perIssue[id := scores.value];
      }
      pending := pending - {id};
    }
  }
}
