/** The issue tracker's data as the report sees it: issues with their change
    histories, and the per-field timelines built from them.
    Timestamps are whole seconds; the difference of two timestamps is their
    signed distance in seconds (`a - b` is positive when `a` is later). */
module Jira {

  datatype Option<+T> = None | Some(value: T)

  /** The outcome of an operation that the source lets raise an exception. */
  datatype Result<+T, +E> = Ok(value: T) | Err(error: E)

  /** Issue ids, account ids and status ids. */
  type Id = string

  /** A point in time, in seconds. */
  type Time = int

  /** One field change inside a history record. `from` and `to` are the old
      and new ids (None for "unassigned" or "no prior value"); `toName` is the
      display name of the new value. */
  datatype Item = Item(field: string, fieldtype: string, from: Option<Id>, to: Option<Id>, toName: Option<string>)

  /** One history record: a timestamp and the field changes made at that time. */
  datatype History = History(created: Time, items: seq<Item>)

  /** An issue as fetched: its histories are listed newest first. */
  datatype Issue = Issue(
    id: Id,
    key: string,
    summary: string,
    timeestimate: Option<int>,
    created: Time,
    statusId: Id,
    assignee: Option<Id>,
    histories: seq<History>)

  /** One entry of a timeline: at `date` the field went from `from` to `to`. */
  datatype Transition = Transition(date: Time, from: Option<Id>, to: Option<Id>)

  /** The two timelines of one issue. */
  datatype Timelines = Timelines(statuses: seq<Transition>, assignees: seq<Transition>)

  /** Only changes of these built-in fields are tracked. */
  const StatusField: string := "status"
  const AssigneeField: string := "assignee"
  const JiraFieldType: string := "jira"

  predicate IsStatusChange(item: Item) {
    item.field == StatusField && item.fieldtype == JiraFieldType
  }

  predicate IsAssigneeChange(item: Item) {
    item.field == AssigneeField && item.fieldtype == JiraFieldType
  }

  /** Dates never go down along the timeline. */
  predicate Ascending(t: seq<Transition>) {
    forall i, j | 0 <= i < j < |t| :: t[i].date <= t[j].date
  }

  /** Dates strictly increase along the timeline. */
  predicate StrictlyAscending(t: seq<Transition>) {
    forall i, j | 0 <= i < j < |t| :: t[i].date < t[j].date
  }

  /** Dates never go up along the list (newest first). */
  predicate Descending(t: seq<Transition>) {
    forall i, j | 0 <= i < j < |t| :: t[i].date >= t[j].date
  }

  function Reverse<T>(s: seq<T>): (r: seq<T>)
    ensures |r| == |s|
    ensures forall k | 0 <= k < |s| :: r[k] == s[|s| - 1 - k]
  {
    if s == [] then [] else Reverse(s[1..]) + [s[0]]
  }
}
