# Jira workload report — verified model of the attribution engine

The report fetches a project's issues with their change histories, and then:

- turns each issue's histories into two timelines, one for status and one for assignee;
- for one target status, shares out the time each issue spent in that status among the assignees who held the issue meanwhile;
- files each issue under its lead, the assignee with the highest score.

This project models that engine in Dafny: the functions `find_at_time`, `map_issues`, `map_assignees`, `build_changelog`, `calculate_workload` and `group_by_lead` of `report.py`.

Model conventions:

- Timestamps are whole seconds (`Time = int`). The difference of two timestamps is `a - b`.
- Ids are strings. A nullable id (the assignee "unassigned", a missing `from`) is `Option<Id>`.
- The source's loops become methods with loop invariants. Each method is proved against a recursive specification function, and the properties are proved about those functions.

Modules:

| file | module | models |
|---|---|---|
| `jira.dfy` | `Jira` | issues, histories, items, transitions, timelines |
| `lookup.dfy` | `Lookup` | `find_at_time` |
| `issue_maps.dfy` | `IssueMaps` | `map_issues`, `map_assignees` |
| `changelog.dfy` | `Changelog` | `build_changelog` |
| `workload.dfy` | `Workload` | `calculate_workload`: the sweep as written |
| `workload_facts.dfy` | `WorkloadFacts` | bounds and totals of the sweep |
| `workload_closed.dfy` | `ClosedWorkload` | the corrected sweep and the example that separates the two |
| `attribution.dfy` | `Attribution` | an independent per-assignee account of what each sweep credits |
| `leads.dfy` | `Leads` | `group_by_lead` |

## Model

| member | source | states |
|---|---|---|
| Lookup.QualifyingPrefix | report.py:15-20 | the result is the length of the longest prefix whose entries are all earlier than `date` (or at it, when inclusive); the entry after that prefix does not qualify |
| Lookup.FindAtTime | report.py:11-22 | an unknown issue id is an error (the dict lookup raises), and so is an empty timeline (`items[0]` raises); otherwise the result is the last entry of the qualifying prefix, or the first entry when that prefix is empty |
| Lookup.ActiveAtIsLatest | report.py:15-22 | on a timeline in date order where some entry qualifies, the entry found qualifies and is no earlier than any qualifying entry |
| Lookup.LookupAtOwnDate | report.py:15-22 | on a timeline with strictly increasing dates, an inclusive lookup at an entry's own date returns that entry |
| IssueMaps.MapIssues | report.py:25-39 | the table has exactly the ids of the issues; each id maps to the details of its first occurrence |
| IssueMaps.MapAssignees | report.py:42-62 | the table equals a replay, in listing order, of every assignee change that names an assignee, where an entry is replaced only by a strictly later one |
| IssueMaps.RecordHistory | report.py:46-61 | one history's items update the table exactly as replaying that history's assignments does |
| IssueMaps.RecordRewrites | report.py:52-61 | the source's conditional re-store of the old entry is the same as recording the assignment |
| IssueMaps.ReplayAppend | report.py:44-61 | replaying two logs one after the other is the same as replaying their concatenation |
| IssueMaps.LatestKeys | report.py:47-61 | the table holds exactly the ids that some change assigned the issue to; changes to "unassigned" add no entry |
| IssueMaps.LatestIsFirstLatest | report.py:52-61 | each id's entry comes from an assignment of that id with the latest date; among equally late ones it is the first listed |
| Changelog.CollectChanges | report.py:84-105 | the status and assignee change lists hold exactly the tracked items of every history, in the order the histories and their items are listed, each dated by its history |
| Changelog.Timeline | report.py:107-131 | the timeline has one more entry than there are changes; the first entry is the creation entry (`from` None, dated at creation, `to` the oldest change's `from` or, with no changes, the current value); entry k is change number (n - k), so the list is the reverse of `changes + [initial]` |
| Changelog.BuildChangelog | report.py:65-134 | the changelog has exactly the ids of the issues; each id maps to the timelines of its last occurrence, as a dict overwrite leaves it |
| Changelog.ChangesNewestFirst | report.py:88-105 | every captured change is dated by one of the histories; with the histories newest first, the changes are in non-increasing date order |
| Changelog.TimelineAscending | report.py:107-131 | reversing non-increasing changes that are all no earlier than the creation date, after the creation entry, gives a timeline in date order |
| Changelog.TimelinesAscending | report.py:84-131 | for an issue with newest-first histories, none of them earlier than the issue's creation, both timelines are in date order |
| Workload.Exits | report.py:150-154 | the result lists, in increasing order, exactly the indices of status entries whose `from` is the target status |
| Workload.Accrue | report.py:169-177 | the credited assignee's score becomes its previous score (0 when missing) plus the credit; every other score is unchanged; the keys gain only the credited assignee |
| Workload.SweepWindow | report.py:161-178 | the cursor never moves back and stays within the timeline; a window that stops at an assignee entry leaves the cursor on that entry, dated at or after the window's end, and leaves the issue with an entry |
| Workload.SweepWindows | report.py:155-178 | one cursor shared by the issue's windows, in order, never moves back and stays within the timeline |
| Workload.RunWindow | report.py:161-178 | the loop over one window ends with the cursor and scores of `SweepWindow` |
| Workload.AllocateIssue | report.py:150-178 | one issue's windows, run with one cursor starting at 0, give the scores of `IssueWorkload` |
| Workload.CalculateWorkload | report.py:148-180 | an issue is in the result exactly when its sweep created an entry for it, and it maps to those scores |
| WorkloadFacts.TotalAccrue | report.py:169-177 | one credit raises the sum of the issue's scores by exactly the credit |
| WorkloadFacts.SweepTotal | report.py:161-178 | a window raises the sum of the scores by the total of the credits it makes |
| WorkloadFacts.CreditedOnBreak | report.py:171-178 | when the window stops at an assignee entry, its credits telescope to `end - start` |
| WorkloadFacts.WindowTotal | report.py:161-178 | a window that stops at an assignee entry raises the sum of the scores by exactly its length |
| WorkloadFacts.CreditedBounds | report.py:161-178 | the credits of one window lie between 0 and its length |
| WorkloadFacts.WindowNonNegative | report.py:165-177 | a window whose start is no later than its end keeps every score non-negative |
| WorkloadFacts.WindowCreditsHolders | report.py:163-177 | every key a window adds is the `from` of an assignee entry at or after the cursor |
| WorkloadFacts.WindowsBounds | report.py:157-178 | over ordered windows, the scores stay non-negative and their sum grows by no more than the windows' total length |
| WorkloadFacts.IssueBounds | report.py:150-178 | on a status timeline in date order that opens with the creation entry, scores are non-negative and sum to at most the time spent in the target status |
| WorkloadFacts.NoExitNoEntry | report.py:150-169 | an issue with no status entry leaving the target status gets no entry in the result |
| ClosedWorkload.ClosedAgreesOnBreak | report.py:161-178 | where the source's window stops at an assignee entry, the corrected window gives the same cursor and scores |
| ClosedWorkload.ClosedWindowComplete | report.py:161-178 | with a non-empty assignee timeline, a corrected window raises the sum of the scores by exactly its length |
| ClosedWorkload.ClosedWindowNonNegative | report.py:165-177 | a corrected window whose start is no later than its end keeps every score non-negative |
| ClosedWorkload.ClosedWindowsComplete | report.py:157-178 | the corrected windows raise the sum of the scores by exactly their total length |
| ClosedWorkload.ClosedWindowsNonNegative | report.py:157-178 | over ordered windows, the corrected sweep keeps every score non-negative |
| ClosedWorkload.IssueWorkloadClosedComplete | report.py:150-178 | with a non-empty assignee timeline, the corrected scores sum to exactly the time spent in the target status, and they are non-negative on an ordered status timeline |
| ClosedWorkload.ReassignedMidWindowExits | report.py:150-159 | in the example, the issue leaves the target status once, after 20 seconds in it |
| ClosedWorkload.ReassignedMidWindowLosesTail | report.py:161-178 | in the example, the source's sweep credits only the first assignee's 10 seconds of the 20-second window |
| ClosedWorkload.ReassignedMidWindowCreditsBoth | report.py:161-178 | in the example, the corrected sweep credits 10 seconds to each of the two assignees |
| Attribution.ShareShift | report.py:165-175 | moving a window's start within the time before an entry does not change what the periods after that entry share with the window |
| Attribution.ShareAfterEnd | report.py:171-178 | periods that start at or after the window's end share nothing with it |
| Attribution.ShareBeforeStart | report.py:165-167 | periods that end no later than the window's start share nothing with it |
| Attribution.GetAccrue | report.py:169-177 | a credit changes only the credited assignee's score |
| Attribution.WindowCursor | report.py:161-178 | after a window, every entry behind the cursor is dated no later than the window's end |
| Attribution.WindowCursorClosed | report.py:161-178 | the same holds for the corrected window |
| Attribution.WindowShare | report.py:161-178 | on an assignee timeline in date order, one window raises each assignee's score by exactly the time the window shares with the periods that assignee held up to an entry |
| Attribution.WindowShareClosed | report.py:161-178 | the corrected window also credits the time it shares with the open period after the last entry to whoever holds it |
| Attribution.WindowsShareSweep | report.py:155-178 | across ordered windows with one cursor, each score grows by the windows' shares with the periods that assignee held |
| Attribution.WindowsShareSweepClosed | report.py:155-178 | the same for the corrected sweep, adding the open last period |
| Attribution.ExitsOrdered | report.py:150-159 | on an ordered status timeline that opens with the creation entry, the windows are well formed and in date order |
| Attribution.IssueWorkloadShares | report.py:148-178 | on ordered timelines, each assignee's score (None for "unassigned") is the time the target-status windows share with the periods that assignee gave up at an assignee change; the open period after the last change counts for no one |
| Attribution.IssueWorkloadClosedShares | report.py:148-178 | the corrected sweep credits the same plus, to the last assignee, the time the windows share with the open last period |
| Leads.TopScorer | report.py:188 | the pick is a key of the score map whose score is at least every other score |
| Leads.FileOne | report.py:187-192 | filing an issue under its top scorer, with that scorer's score, keeps the grouping consistent |
| Leads.SkipOne | report.py:187 | skipping an issue with an empty score map keeps the grouping consistent |
| Leads.GroupByLead | report.py:183-194 | every issue with a non-empty score map is in exactly one group, that of a top scorer, with that scorer's score; only such issues are grouped, and no group is empty |

## Left out

- Printing and the command line (`issue_report`, `assignee_report`, `main`): these are I/O, float formatting (`/3600`) and display sorting.
- Fetching from the server (`search.py`) and the file loading and tallies of `info.py`: these are I/O.
- Parsing timestamp strings (`dateutils.py`) is not modelled. Timestamps are integer seconds, and `datetime_compare(a, b)` is `a - b`.
- Dict iteration order is not modelled. The loops over `changelog.items()` and `workloads.items()` take the keys in an arbitrary order. Each issue's result does not depend on the others, so every order gives the same result.
- Leads.TopScorer: which of several tied keys `max` returns depends on dict iteration order. The contract states only that the pick's score is maximal.
- Workload.CalculateWorkload: the source fills one nested dict in place through `setdefault` and `+=`. The model runs each issue through `AllocateIssue`, whose inner window loop is `RunWindow`, and stores the issue's finished scores. The arithmetic and the order of updates within an issue are the same.
- Item fields the report never reads (`fromString`, and so on) are not in the model.
- Lookup.FindAtTime: the source returns a copy of the entry. Entries are values in the model, so the copy is the entry itself.
- Lookup.FindAtTime: the source raises on an unknown issue id or an empty timeline. The model returns an `Err` value instead of raising.

## Findings

| source | as written | input that shows it | evidently intended | confidence | as-written member | corrected member |
|---|---|---|---|---|---|---|
| report.py:161-178 | when the assignee entries run out inside a window, the inner loop ends without its final credit, so the time from the last assignee change to the window's end is credited to no one | statuses open@0, dev@10, open@30 (target "dev"); assignees ann@0, bob@20: the 20-second window credits ann 10 and bob nothing | the rest of the window goes to the current assignee (the last entry's `to`), so each window's credits sum to its length | not executed | ClosedWorkload.ReassignedMidWindowLosesTail | ClosedWorkload.IssueWorkloadClosedComplete |
