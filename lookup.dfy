/** Point-in-time lookup over one timeline (`find_at_time`). */
module Lookup {
  import opened Jira

  /** Which of an issue's two timelines to search. */
  datatype TimelineKey = Statuses | Assignees

  /** Why a lookup fails: the issue has no changelog (a missing key), or the
      selected timeline is empty (indexing its first entry fails). */
  datatype LookupError = UnknownIssue(id: Id) | EmptyTimeline

  function Select(t: Timelines, key: TimelineKey): seq<Transition> {
    match key
    case Statuses => t.statuses
    case Assignees => t.assignees
  }

  /** The entry counts as already in effect at `date`: it lies strictly
      before `date`, or exactly at it when `inclusive`. */
  predicate Qualifies(item: Transition, date: Time, inclusive: bool) {
    var diff := item.date - date;
    diff < 0 || (inclusive && diff == 0)
  }

  /** The length of the longest prefix of `items` whose entries all qualify. */
  function QualifyingPrefix(items: seq<Transition>, date: Time, inclusive: bool): (n: nat)
    ensures n <= |items|
    ensures forall j | 0 <= j < n :: Qualifies(items[j], date, inclusive)
    ensures n < |items| ==> !Qualifies(items[n], date, inclusive)
  {
    if items == [] || !Qualifies(items[0], date, inclusive) then 0
    else 1 + QualifyingPrefix(items[1..], date, inclusive)
  }

  /** The entry in effect at `date`: the last entry of the qualifying prefix,
      or the first entry of the timeline when that prefix is empty. */
  function ActiveAt(items: seq<Transition>, date: Time, inclusive: bool): Transition
    requires items != []
  {
    var n := QualifyingPrefix(items, date, inclusive);
    if n == 0 then items[0] else items[n - 1]
  }

  /** Looks up, in the changelog of `issueId`, the entry of the `key`
      timeline in effect at `date`. */
  method FindAtTime(changelog: map<Id, Timelines>, date: Time, issueId: Id, key: TimelineKey, inclusive: bool)
    returns (r: Result<Transition, LookupError>)
    ensures issueId !in changelog ==> r == Err(UnknownIssue(issueId))
    ensures issueId in changelog && Select(changelog[issueId], key) == [] ==> r == Err(EmptyTimeline)
    ensures issueId in changelog && Select(changelog[issueId], key) != [] ==>
              r == Ok(ActiveAt(Select(changelog[issueId], key), date, inclusive))
  {
    if issueId !in changelog {
      return Err(UnknownIssue(issueId));
    }
    var items := Select(changelog[issueId], key);
    var previous: Option<Transition> := None;
    var k := 0;
    while k < |items|
      invariant 0 <= k <= |items|
      invariant forall j | 0 <= j < k :: Qualifies(items[j], date, inclusive)
      invariant previous == if k == 0 then None else Some(items[k - 1])
    {
      var diff := items[k].date - date;
      if diff < 0 || (inclusive && diff == 0) {
        previous := Some(items[k]);
      } else {
        break;
      }
      k := k + 1;
    }
    assert k == QualifyingPrefix(items, date, inclusive);
    if previous.Some? {
      r := Ok(previous.value);
    } else if items == [] {
      r := Err(EmptyTimeline);
    } else {
      r := Ok(items[0]);
    }
  }

  /** On a timeline in date order, the entry found is the latest one that is
      in effect at `date`: it qualifies, and every later entry does not. */
  lemma {:induction false} ActiveAtIsLatest(items: seq<Transition>, date: Time, inclusive: bool, k: nat)
    requires Ascending(items)
    requires k < |items| && Qualifies(items[k], date, inclusive)
    ensures Qualifies(ActiveAt(items, date, inclusive), date, inclusive)
    ensures forall j | 0 <= j < |items| && Qualifies(items[j], date, inclusive) ::
              items[j].date <= ActiveAt(items, date, inclusive).date
  {
    var n := QualifyingPrefix(items, date, inclusive);
    // On an ascending timeline an entry that qualifies makes every earlier one qualify.
    forall j | 0 <= j <= k ensures Qualifies(items[j], date, inclusive) {
      assert items[j].date <= items[k].date;
    }
    assert n > k;
    // Past the prefix nothing qualifies: the entry at n already fails, and later ones are not earlier.
    forall j | n <= j < |items| ensures !Qualifies(items[j], date, inclusive) {
      assert items[n].date <= items[j].date;
    }
  }

  /** Lookup consistency: on a timeline with strictly increasing dates, an
      inclusive lookup at an entry's own date finds that entry. */
  lemma {:induction false} LookupAtOwnDate(items: seq<Transition>, k: nat)
    requires StrictlyAscending(items)
    requires k < |items|
    ensures ActiveAt(items, items[k].date, true) == items[k]
  {
    var n := QualifyingPrefix(items, items[k].date, true);
    forall j | 0 <= j <= k ensures Qualifies(items[j], items[k].date, true) {
      assert j < k ==> items[j].date < items[k].date;
    }
    forall j | k < j < |items| ensures !Qualifies(items[j], items[k].date, true) {
      assert items[k].date < items[j].date;
    }
    if k + 1 < |items| {
      assert !Qualifies(items[k + 1], items[k].date, true);
    }
    assert n == k + 1;
  }
}
