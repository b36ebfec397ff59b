/** The lookup tables the report prints from: issue details by issue id
    (`map_issues`) and assignee details by account id (`map_assignees`). */
module IssueMaps {
  import opened Jira

  /** What the report shows of an issue. */
  datatype IssueInfo = IssueInfo(key: string, title: string, timeestimate: Option<int>)

  /** What the report shows of an assignee: the name from the history record
      that assigned them, and that record's date. */
  datatype AssigneeInfo = AssigneeInfo(name: Option<string>, created: Time)

  function InfoOf(issue: Issue): IssueInfo {
    IssueInfo(issue.key, issue.summary, issue.timeestimate)
  }

  /** Builds the issue table; when an id occurs more than once, its first
      occurrence is kept. */
  method MapIssues(issues: seq<Issue>) returns (issueMap: map<Id, IssueInfo>)
    ensures forall id :: id in issueMap <==> exists i | 0 <= i < |issues| :: issues[i].id == id
    ensures forall i | 0 <= i < |issues| && (forall j | 0 <= j < i :: issues[j].id != issues[i].id) ::
              issueMap[issues[i].id] == InfoOf(issues[i])
  {
    issueMap := map[];
    for n := 0 to |issues|
      invariant FirstWins(issues, n, issueMap)
    {
      var issue := issues[n];
      MapOneIssue(issues, n, issueMap);
      issueMap := issueMap[issue.id := if issue.id !in issueMap then InfoOf(issue) else issueMap[issue.id]];
    }
  }

  /** `issueMap` holds the ids of the first `n` issues, each with the details
      of its first occurrence. */
  ghost predicate FirstWins(issues: seq<Issue>, n: nat, issueMap: map<Id, IssueInfo>)
    requires n <= |issues|
  {
    && (forall id :: id in issueMap <==> exists i | 0 <= i < n :: issues[i].id == id)
    && (forall i | 0 <= i < n && (forall j | 0 <= j < i :: issues[j].id != issues[i].id) ::
          issueMap[issues[i].id] == InfoOf(issues[i]))
  }

  /** One more issue keeps the table as `FirstWins` describes it. */
  lemma MapOneIssue(issues: seq<Issue>, n: nat, issueMap: map<Id, IssueInfo>)
    requires n < |issues| && FirstWins(issues, n, issueMap)
    ensures var id := issues[n].id;
      FirstWins(issues, n + 1, issueMap[id := if id !in issueMap then InfoOf(issues[n]) else issueMap[id]])
  {
    var id := issues[n].id;
    if id in issueMap {
      var j :| 0 <= j < n && issues[j].id == id;
      assert issueMap[id := issueMap[id]] == issueMap;
    }
  }

  /** One assignment seen in the histories: `id` was assigned, by a record
      dated `info.created`, under the name `info.name`. */
  datatype Assignment = Assignment(id: Id, info: AssigneeInfo)

  /** An item that names an assignee: an assignee change to someone. */
  predicate Assigns(item: Item) {
    IsAssigneeChange(item) && item.to.Some?
  }

  function ItemAssignments(items: seq<Item>, created: Time): seq<Assignment> {
    if items == [] then []
    else
      var last := items[|items| - 1];
      ItemAssignments(items[..|items| - 1], created)
        + (if Assigns(last) then [Assignment(last.to.value, AssigneeInfo(last.toName, created))] else [])
  }

  function HistoryAssignments(histories: seq<History>): seq<Assignment> {
    if histories == [] then []
    else
      var last := histories[|histories| - 1];
      HistoryAssignments(histories[..|histories| - 1]) + ItemAssignments(last.items, last.created)
  }

  /** Every assignment in the issues, in the order the issues, their
      histories and their items are listed. */
  function Assignments(issues: seq<Issue>): seq<Assignment> {
    if issues == [] then []
    else Assignments(issues[..|issues| - 1]) + HistoryAssignments(issues[|issues| - 1].histories)
  }

  /** Records one assignment: it replaces the entry of its id only when there
      is none or when its date is strictly later. */
  function Record(table: map<Id, AssigneeInfo>, a: Assignment): map<Id, AssigneeInfo> {
    if a.id !in table || a.info.created > table[a.id].created then table[a.id := a.info] else table
  }

  /** `table` after recording `log` in order. */
  function Replay(table: map<Id, AssigneeInfo>, log: seq<Assignment>): map<Id, AssigneeInfo> {
    if log == [] then table else Record(Replay(table, log[..|log| - 1]), log[|log| - 1])
  }

  /** The table after recording `log` in order, starting from no entries. */
  function Latest(log: seq<Assignment>): map<Id, AssigneeInfo> {
    Replay(map[], log)
  }

  /** Builds the assignee table in one pass over every item of every history. */
  method MapAssignees(issues: seq<Issue>) returns (assigneeMap: map<Id, AssigneeInfo>)
    ensures assigneeMap == Latest(Assignments(issues))
  {
    assigneeMap := map[];
    for n := 0 to |issues|
      invariant assigneeMap == Latest(Assignments(issues[..n]))
    {
      var histories := issues[n].histories;
      ghost var before := assigneeMap;
      for h := 0 to |histories|
        invariant assigneeMap == Replay(before, HistoryAssignments(histories[..h]))
      {
        assigneeMap := RecordHistory(assigneeMap, histories[h]);
        HistoryAssignmentsStep(histories, h);
        ReplayAppend(before, HistoryAssignments(histories[..h]), ItemAssignments(histories[h].items, histories[h].created));
      }
      assert histories[..|histories|] == histories;
      AssignmentsStep(issues, n);
      ReplayAppend(map[], Assignments(issues[..n]), HistoryAssignments(histories));
    }
    assert issues[..|issues|] == issues;
  }

  /** The innermost loop of `MapAssignees`: records the assignments of one
      history record, in item order. */
  method RecordHistory(assigneeMap: map<Id, AssigneeInfo>, history: History) returns (assigneeMap': map<Id, AssigneeInfo>)
    ensures assigneeMap' == Replay(assigneeMap, ItemAssignments(history.items, history.created))
  {
    assigneeMap' := assigneeMap;
    for k := 0 to |history.items|
      invariant assigneeMap' == Replay(assigneeMap, ItemAssignments(history.items[..k], history.created))
    {
      var item := history.items[k];
      ItemAssignmentsStep(history.items, k, history.created);
      if IsAssigneeChange(item) && item.to.Some? {
        var a := Assignment(item.to.value, AssigneeInfo(item.toName, history.created));
        ReplayStep(assigneeMap, ItemAssignments(history.items[..k], history.created), a);
        RecordRewrites(assigneeMap', a);
        assigneeMap' := assigneeMap'[a.id := if a.id !in assigneeMap' || a.info.created > assigneeMap'[a.id].created
                                              then a.info else assigneeMap'[a.id]];
      }
    }
    assert history.items[..|history.items|] == history.items;
  }

  /** Writing back the old entry, as the source does when the new record is
      not later, leaves the table as it was. */
  lemma RecordRewrites(table: map<Id, AssigneeInfo>, a: Assignment)
    ensures table[a.id := if a.id !in table || a.info.created > table[a.id].created then a.info else table[a.id]]
         == Record(table, a)
  {
    if !(a.id !in table || a.info.created > table[a.id].created) {
      assert table[a.id := table[a.id]] == table;
    }
  }

  lemma ReplayStep(table: map<Id, AssigneeInfo>, log: seq<Assignment>, a: Assignment)
    ensures Replay(table, log + [a]) == Record(Replay(table, log), a)
  {
    assert (log + [a])[..|log|] == log;
  }

  /** Replaying two logs one after the other is replaying their concatenation. */
  lemma {:induction false} ReplayAppend(table: map<Id, AssigneeInfo>, log: seq<Assignment>, more: seq<Assignment>)
    ensures Replay(table, log + more) == Replay(Replay(table, log), more)
    decreases |more|
  {
    if more == [] {
      assert log + more == log;
    } else {
      var front := more[..|more| - 1];
      assert log + more == (log + front) + [more[|more| - 1]];
      ReplayStep(table, log + front, more[|more| - 1]);
      ReplayAppend(table, log, front);
    }
  }

  lemma ItemAssignmentsStep(items: seq<Item>, k: nat, created: Time)
    requires k < |items|
    ensures Assigns(items[k]) ==>
              ItemAssignments(items[..k + 1], created)
              == ItemAssignments(items[..k], created) + [Assignment(items[k].to.value, AssigneeInfo(items[k].toName, created))]
    ensures !Assigns(items[k]) ==> ItemAssignments(items[..k + 1], created) == ItemAssignments(items[..k], created)
  {
    assert items[..k + 1][..k] == items[..k];
  }

  lemma HistoryAssignmentsStep(histories: seq<History>, h: nat)
    requires h < |histories|
    ensures HistoryAssignments(histories[..h + 1])
         == HistoryAssignments(histories[..h]) + ItemAssignments(histories[h].items, histories[h].created)
  {
    assert histories[..h + 1][..h] == histories[..h];
  }

  lemma AssignmentsStep(issues: seq<Issue>, n: nat)
    requires n < |issues|
    ensures Assignments(issues[..n + 1]) == Assignments(issues[..n]) + HistoryAssignments(issues[n].histories)
  {
    assert issues[..n + 1][..n] == issues[..n];
  }

  /** `log[i]` is an assignment of `id` with the latest date among the
      assignments of `id`, and every earlier one of `id` is strictly older. */
  ghost predicate FirstLatest(log: seq<Assignment>, id: Id, i: int) {
    && 0 <= i < |log| && log[i].id == id
    && (forall j | 0 <= j < |log| && log[j].id == id :: log[j].info.created <= log[i].info.created)
    && (forall j | 0 <= j < i && log[j].id == id :: log[j].info.created < log[i].info.created)
  }

  /** The assignee table holds exactly the ids that were assigned. */
  lemma {:induction false} LatestKeys(log: seq<Assignment>)
    ensures forall id :: id in Latest(log) <==> exists i | 0 <= i < |log| :: log[i].id == id
  {
    if log != [] {
      var front := log[..|log| - 1];
      assert Latest(log) == Record(Latest(front), log[|log| - 1]);
      LatestKeys(front);
      forall id | exists i | 0 <= i < |log| :: log[i].id == id
        ensures id in Latest(log)
      {
        var i :| 0 <= i < |log| && log[i].id == id;
        if i < |front| {
          assert front[i].id == id;
        }
      }
      forall id | id in Latest(log)
        ensures exists i | 0 <= i < |log| :: log[i].id == id
      {
        if id != log[|log| - 1].id {
          var i :| 0 <= i < |front| && front[i].id == id;
          assert log[i].id == id;
        }
      }
    }
  }

  /** An assignment newer than every earlier one of its id is the first latest. */
  lemma NewLatest(front: seq<Assignment>, a: Assignment)
    requires forall j | 0 <= j < |front| && front[j].id == a.id :: front[j].info.created < a.info.created
    ensures FirstLatest(front + [a], a.id, |front|)
  {
    var log := front + [a];
    forall j | 0 <= j < |front| && log[j].id == a.id ensures log[j].info.created < a.info.created {
      assert log[j] == front[j];
    }
  }

  /** An assignment no newer than the first latest of its id leaves it in place. */
  lemma KeptLatest(front: seq<Assignment>, a: Assignment, id: Id, i: int)
    requires FirstLatest(front, id, i)
    requires a.id == id ==> a.info.created <= front[i].info.created
    ensures FirstLatest(front + [a], id, i)
  {
    var log := front + [a];
    assert log[i] == front[i];
    forall j | 0 <= j < |log| && log[j].id == id ensures log[j].info.created <= log[i].info.created {
      if j < |front| {
        assert log[j] == front[j];
      }
    }
    forall j | 0 <= j < i && log[j].id == id ensures log[j].info.created < log[i].info.created {
      assert log[j] == front[j];
    }
  }

  /** The entry of an assigned id is the first of its assignments with the
      latest date: a later record replaces it only when strictly newer. */
  lemma {:induction false} LatestIsFirstLatest(log: seq<Assignment>, id: Id)
    requires id in Latest(log)
    ensures exists i :: FirstLatest(log, id, i) && log[i].info == Latest(log)[id]
  {
    var front, a := log[..|log| - 1], log[|log| - 1];
    assert log == front + [a];
    assert Latest(log) == Record(Latest(front), a);
    var prev := Latest(front);
    if id == a.id && (id !in prev || a.info.created > prev[id].created) {
      // The last assignment wins: no earlier one of `id` is as new.
      if id in prev {
        LatestIsFirstLatest(front, id);
        var i :| FirstLatest(front, id, i) && front[i].info == prev[id];
      } else {
        LatestKeys(front);
      }
      NewLatest(front, a);
      assert FirstLatest(log, id, |log| - 1);
    } else {
      // The entry is unchanged and its witness in `front` still serves.
      LatestIsFirstLatest(front, id);
      var i :| FirstLatest(front, id, i) && front[i].info == prev[id];
      KeptLatest(front, a, id, i);
      assert FirstLatest(log, id, i) && log[i].info == Latest(log)[id];
    }
  }
}
