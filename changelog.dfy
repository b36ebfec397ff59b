/** Reconstruction of each issue's status and assignee timelines from its
    newest-first change histories (`build_changelog`). */
module Changelog {
  import opened Jira

  /** The two fields whose changes are collected. */
  datatype Field = Status | Assignee

  predicate Tracks(f: Field, item: Item) {
    match f
    case Status => IsStatusChange(item)
    case Assignee => IsAssigneeChange(item)
  }

  /** The changes of field `f` among `items`, all dated `created`, in item order. */
  function ItemChanges(items: seq<Item>, created: Time, f: Field): seq<Transition> {
    if items == [] then []
    else
      var last := items[|items| - 1];
      ItemChanges(items[..|items| - 1], created, f)
        + (if Tracks(f, last) then [Transition(created, last.from, last.to)] else [])
  }

  /** The changes of field `f` in `histories`, in the order the histories
      and their items are listed (newest history first). */
  function Changes(histories: seq<History>, f: Field): seq<Transition> {
    if histories == [] then []
    else
      var last := histories[|histories| - 1];
      Changes(histories[..|histories| - 1], f) + ItemChanges(last.items, last.created, f)
  }

  /** The timeline of one field: the collected changes followed by a synthetic
      creation entry, the whole list reversed. The creation entry has no
      `from`; its `to` is the `from` of the oldest change, or the current
      value when the field never changed. */
  function Timeline(changes: seq<Transition>, created: Time, current: Option<Id>): (r: seq<Transition>)
    ensures |r| == |changes| + 1
    ensures r[0] == Transition(created, None, if changes == [] then current else changes[|changes| - 1].from)
    ensures forall k | 1 <= k < |r| :: r[k] == changes[|changes| - k]
  {
    var initial := Transition(created, None, if |changes| > 0 then changes[|changes| - 1].from else current);
    Reverse(changes + [initial])
  }

  /** Both timelines of one issue. */
  function IssueTimelines(issue: Issue): Timelines {
    Timelines(
      Timeline(Changes(issue.histories, Status), issue.created, Some(issue.statusId)),
      Timeline(Changes(issue.histories, Assignee), issue.created, issue.assignee))
  }

  /** Collects, in one pass over the histories and their items, the status
      changes and the assignee changes of `issue`. */
  method CollectChanges(issue: Issue) returns (statusChanges: seq<Transition>, assigneeChanges: seq<Transition>)
    ensures statusChanges == Changes(issue.histories, Status)
    ensures assigneeChanges == Changes(issue.histories, Assignee)
  {
    statusChanges, assigneeChanges := [], [];
    var hs := issue.histories;
    for h := 0 to |hs|
      invariant statusChanges == Changes(hs[..h], Status)
      invariant assigneeChanges == Changes(hs[..h], Assignee)
    {
      var history := hs[h];
      ChangesStep(hs, h, Status);
      ChangesStep(hs, h, Assignee);
      ghost var status0, assignee0 := statusChanges, assigneeChanges;
      for k := 0 to |history.items|
        invariant statusChanges == status0 + ItemChanges(history.items[..k], history.created, Status)
        invariant assigneeChanges == assignee0 + ItemChanges(history.items[..k], history.created, Assignee)
      {
        var item := history.items[k];
        ItemChangesStep(history.items, k, history.created, Status);
        ItemChangesStep(history.items, k, history.created, Assignee);
        if IsStatusChange(item) {
          statusChanges := statusChanges + [Transition(history.created, item.from, item.to)];
        } else if IsAssigneeChange(item) {
          assigneeChanges := assigneeChanges + [Transition(history.created, item.from, item.to)];
        }
      }
      assert history.items[..|history.items|] == history.items;
    }
    assert hs[..|hs|] == hs;
  }

  lemma ItemChangesStep(items: seq<Item>, k: nat, created: Time, f: Field)
    requires k < |items|
    ensures Tracks(f, items[k]) ==>
              ItemChanges(items[..k + 1], created, f)
              == ItemChanges(items[..k], created, f) + [Transition(created, items[k].from, items[k].to)]
    ensures !Tracks(f, items[k]) ==> ItemChanges(items[..k + 1], created, f) == ItemChanges(items[..k], created, f)
  {
    assert items[..k + 1][..k] == items[..k];
  }

  lemma ChangesStep(histories: seq<History>, h: nat, f: Field)
    requires h < |histories|
    ensures Changes(histories[..h + 1], f) == Changes(histories[..h], f) + ItemChanges(histories[h].items, histories[h].created, f)
  {
    assert histories[..h + 1][..h] == histories[..h];
  }

  /** Builds the changelog of every issue, keyed by issue id. A later issue
      with the same id replaces an earlier one. */
  method BuildChangelog(issues: seq<Issue>) returns (changelog: map<Id, Timelines>)
    ensures forall id :: id in changelog <==> exists i | 0 <= i < |issues| :: issues[i].id == id
    ensures forall i | 0 <= i < |issues| && (forall j | i < j < |issues| :: issues[j].id != issues[i].id) ::
              changelog[issues[i].id] == IssueTimelines(issues[i])
  {
    ghost var ids := seq(|issues|, i requires 0 <= i < |issues| => issues[i].id);
    ghost var expected := seq(|issues|, i requires 0 <= i < |issues| => IssueTimelines(issues[i]));
    changelog := map[];
    for n := 0 to |issues|
      invariant LastWins(ids, expected, n, changelog)
    {
      var issue := issues[n];
      var statusChanges, assigneeChanges := CollectChanges(issue);
      var initialStatus := Transition(issue.created, None,
        if |statusChanges| > 0 then statusChanges[|statusChanges| - 1].from else Some(issue.statusId));
      var initialAssignee := Transition(issue.created, None,
        if |assigneeChanges| > 0 then assigneeChanges[|assigneeChanges| - 1].from else issue.assignee);
      var timelines := Timelines(
        Reverse(statusChanges + [initialStatus]),
        Reverse(assigneeChanges + [initialAssignee]));
      assert timelines == expected[n];
      StoreLast(ids, expected, n, changelog);
      changelog := changelog[issue.id := timelines];
    }
    forall id ensures id in changelog <==> exists i | 0 <= i < |issues| :: issues[i].id == id {
      if id in changelog {
        var i :| 0 <= i < |ids| && ids[i] == id;
        assert issues[i].id == id;
      } else {
        forall i | 0 <= i < |issues| ensures issues[i].id != id {
          assert ids[i] == issues[i].id;
        }
      }
    }
    forall i | 0 <= i < |issues| && (forall j | i < j < |issues| :: issues[j].id != issues[i].id)
      ensures changelog[issues[i].id] == IssueTimelines(issues[i])
    {
      assert ids[i] == issues[i].id && expected[i] == IssueTimelines(issues[i]);
      forall j | i < j < |ids| ensures ids[j] != ids[i] {
        assert ids[j] == issues[j].id;
      }
    }
  }

  /** `table` holds the first `n` of `keys`, each with the value paired with
      its last occurrence among them. */
  ghost predicate LastWins<V>(keys: seq<Id>, values: seq<V>, n: nat, table: map<Id, V>)
    requires n <= |keys| == |values|
  {
    && (forall id :: id in table <==> exists i | 0 <= i < n :: keys[i] == id)
    && (forall i | 0 <= i < n && (forall j | i < j < n :: keys[j] != keys[i]) :: table[keys[i]] == values[i])
  }

  /** Storing one more pair keeps the table as `LastWins` describes it. */
  lemma StoreLast<V>(keys: seq<Id>, values: seq<V>, n: nat, table: map<Id, V>)
    requires n < |keys| == |values| && LastWins(keys, values, n, table)
    ensures LastWins(keys, values, n + 1, table[keys[n] := values[n]])
  {
    var table' := table[keys[n] := values[n]];
    forall i | 0 <= i < n + 1 && (forall j | i < j < n + 1 :: keys[j] != keys[i])
      ensures table'[keys[i]] == values[i]
    {
      if i < n {
        assert keys[n] != keys[i];
      }
    }
  }

  /** The histories are listed newest first. */
  predicate NewestFirst(histories: seq<History>) {
    forall i, j | 0 <= i < j < |histories| :: histories[i].created >= histories[j].created
  }

  /** Every change collected from `items` carries the date `created`. */
  lemma {:induction false} ItemChangesDated(items: seq<Item>, created: Time, f: Field)
    ensures forall c | c in ItemChanges(items, created, f) :: c.date == created
  {
    if items != [] {
      ItemChangesDated(items[..|items| - 1], created, f);
    }
  }

  /** Every collected change carries the date of some history, and the changes
      of newest-first histories come out newest first. */
  lemma {:induction false} ChangesNewestFirst(histories: seq<History>, f: Field)
    ensures forall c | c in Changes(histories, f) :: exists h | 0 <= h < |histories| :: c.date == histories[h].created
    ensures NewestFirst(histories) ==> Descending(Changes(histories, f))
  {
    if histories != [] {
      var front := histories[..|histories| - 1];
      var last := histories[|histories| - 1];
      ChangesNewestFirst(front, f);
      ItemChangesDated(last.items, last.created, f);
      var a, b := Changes(front, f), ItemChanges(last.items, last.created, f);
      forall c: Transition | c in a + b ensures exists h | 0 <= h < |histories| :: c.date == histories[h].created {
        if c in a {
          var h :| 0 <= h < |front| && c.date == front[h].created;
          assert c.date == histories[h].created;
        } else {
          assert c.date == histories[|histories| - 1].created;
        }
      }
      if NewestFirst(histories) {
        assert NewestFirst(front);
        forall i, j | 0 <= i < j < |a + b| ensures (a + b)[i].date >= (a + b)[j].date {
          if j >= |a| {
            assert (a + b)[j] in b;
            if i < |a| {
              assert (a + b)[i] in a;
              var h :| 0 <= h < |front| && a[i].date == front[h].created;
              assert histories[h].created >= histories[|histories| - 1].created;
            } else {
              assert (a + b)[i] in b;
            }
          }
        }
      }
    }
  }

  /** When the histories are newest first and the issue was created no later
      than any of them, both timelines come out in ascending date order. */
  lemma TimelinesAscending(issue: Issue)
    requires NewestFirst(issue.histories)
    requires forall h | 0 <= h < |issue.histories| :: issue.created <= issue.histories[h].created
    ensures Ascending(IssueTimelines(issue).statuses)
    ensures Ascending(IssueTimelines(issue).assignees)
  {
    ChangesNewestFirst(issue.histories, Status);
    ChangesNewestFirst(issue.histories, Assignee);
    TimelineAscending(Changes(issue.histories, Status), issue.created, Some(issue.statusId));
    TimelineAscending(Changes(issue.histories, Assignee), issue.created, issue.assignee);
  }

  /** Reversing a newest-first change list that starts no earlier than the
      creation date gives an ascending timeline. */
  lemma TimelineAscending(changes: seq<Transition>, created: Time, current: Option<Id>)
    requires Descending(changes)
    requires forall c | c in changes :: created <= c.date
    ensures Ascending(Timeline(changes, created, current))
  {
    var r := Timeline(changes, created, current);
    forall i, j | 0 <= i < j < |r| ensures r[i].date <= r[j].date {
      assert changes[|changes| - j] in changes;
      if i > 0 {
        assert r[i] == changes[|changes| - i];
      }
    }
  }
}
