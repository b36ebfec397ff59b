/** The lead view (`group_by_lead`): every issue with scores is filed under
    the assignee with the highest score on it. */
module Leads {
  import opened Jira
  import opened Workload

  /** Picks an assignee with the highest score: a later key replaces the
      current pick only when its score is strictly higher. Which of several
      tied keys is picked depends on the iteration order of the map. */
  method TopScorer(scores: Scores) returns (lead: Option<Id>)
    requires scores != map[]
    ensures lead in scores
    ensures forall k | k in scores :: scores[k] <= scores[lead]
  {
    var rest := scores.Keys;
    lead :| lead in rest;
    while rest != {}
      invariant rest <= scores.Keys && lead in scores
      invariant forall k | k in scores && k !in rest :: scores[k] <= scores[lead]
      decreases rest
    {
      var k :| k in rest;
      if scores[k] > scores[lead] {
        lead := k;
      }
      rest := rest - {k};
    }
  }

  /** `lead` has the highest score in `scores`. */
  predicate IsTop(scores: Scores, lead: Option<Id>) {
    lead in scores && forall k | k in scores :: scores[k] <= scores[lead]
  }

  /** The groups built so far: `leadOf` holds the lead chosen for every
      issue with scores outside `pending`, and `perLeads` files exactly those
      issues, each under its lead with the lead's score. */
  ghost predicate Filed(workloads: map<Id, Scores>, pending: set<Id>, leadOf: map<Id, Option<Id>>,
                        perLeads: map<Option<Id>, map<Id, int>>)
  {
    && pending <= workloads.Keys
    && Chosen(workloads, pending, leadOf)
    && Placed(leadOf, perLeads)
    && Owned(workloads, leadOf, perLeads)
    && (forall lead | lead in perLeads :: perLeads[lead] != map[])
  }

  /** `leadOf` holds a top scorer for exactly the issues with scores that are
      no longer pending. */
  ghost predicate Chosen(workloads: map<Id, Scores>, pending: set<Id>, leadOf: map<Id, Option<Id>>) {
    && (forall id :: id in leadOf <==> id in workloads && id !in pending && workloads[id] != map[])
    && (forall id | id in leadOf :: id in workloads && IsTop(workloads[id], leadOf[id]))
  }

  /** Every issue with a lead is filed under that lead. */
  ghost predicate Placed(leadOf: map<Id, Option<Id>>, perLeads: map<Option<Id>, map<Id, int>>) {
    forall id | id in leadOf :: leadOf[id] in perLeads && id in perLeads[leadOf[id]]
  }

  /** Every filed issue is filed under its own lead, with the lead's score. */
  ghost predicate Owned(workloads: map<Id, Scores>, leadOf: map<Id, Option<Id>>, perLeads: map<Option<Id>, map<Id, int>>) {
    forall lead, id | lead in perLeads && id in perLeads[lead] ::
      && id in leadOf && leadOf[id] == lead
      && id in workloads && lead in workloads[id] && perLeads[lead][id] == workloads[id][lead]
  }

  /** Filing one more issue under its top scorer keeps the groups consistent. */
  lemma FileOne(workloads: map<Id, Scores>, pending: set<Id>, leadOf: map<Id, Option<Id>>,
                perLeads: map<Option<Id>, map<Id, int>>, id: Id, lead: Option<Id>)
    requires Filed(workloads, pending, leadOf, perLeads)
    requires id in pending && workloads[id] != map[] && IsTop(workloads[id], lead)
    ensures Filed(workloads, pending - {id}, leadOf[id := lead],
                  perLeads[lead := (if lead in perLeads then perLeads[lead] else map[])[id := workloads[id][lead]]])
  {
    assert id !in leadOf;
    var group := (if lead in perLeads then perLeads[lead] else map[])[id := workloads[id][lead]];
    ChooseOne(workloads, pending, leadOf, id, lead);
    PlaceOne(leadOf, perLeads, id, lead, group);
    OwnOne(workloads, leadOf, perLeads, id, lead);
  }

  lemma ChooseOne(workloads: map<Id, Scores>, pending: set<Id>, leadOf: map<Id, Option<Id>>, id: Id, lead: Option<Id>)
    requires Chosen(workloads, pending, leadOf)
    requires id in pending && id in workloads && workloads[id] != map[] && IsTop(workloads[id], lead)
    ensures Chosen(workloads, pending - {id}, leadOf[id := lead])
  {
  }

  lemma PlaceOne(leadOf: map<Id, Option<Id>>, perLeads: map<Option<Id>, map<Id, int>>, id: Id, lead: Option<Id>, group: map<Id, int>)
    requires Placed(leadOf, perLeads) && id in group
    requires lead in perLeads ==> perLeads[lead].Keys <= group.Keys
    ensures Placed(leadOf[id := lead], perLeads[lead := group])
  {
    var leadOf', perLeads' := leadOf[id := lead], perLeads[lead := group];
    forall i | i in leadOf' ensures leadOf'[i] in perLeads' && i in perLeads'[leadOf'[i]] {
      if i != id {
        assert leadOf[i] in perLeads && i in perLeads[leadOf[i]];
      }
    }
  }

  lemma OwnOne(workloads: map<Id, Scores>, leadOf: map<Id, Option<Id>>, perLeads: map<Option<Id>, map<Id, int>>, id: Id, lead: Option<Id>)
    requires Owned(workloads, leadOf, perLeads) && id !in leadOf
    requires id in workloads && lead in workloads[id]
    ensures Owned(workloads, leadOf[id := lead],
                  perLeads[lead := (if lead in perLeads then perLeads[lead] else map[])[id := workloads[id][lead]]])
  {
    var leadOf' := leadOf[id := lead];
    var perLeads' := perLeads[lead := (if lead in perLeads then perLeads[lead] else map[])[id := workloads[id][lead]]];
    forall l, i | l in perLeads' && i in perLeads'[l]
      ensures && i in leadOf' && leadOf'[i] == l
              && i in workloads && l in workloads[i] && perLeads'[l][i] == workloads[i][l]
    {
      if i != id {
        assert i in perLeads[l];
      }
    }
  }

  /** Skipping an issue without scores keeps the groups consistent. */
  lemma SkipOne(workloads: map<Id, Scores>, pending: set<Id>, leadOf: map<Id, Option<Id>>,
                perLeads: map<Option<Id>, map<Id, int>>, id: Id)
    requires Filed(workloads, pending, leadOf, perLeads)
    requires id in pending && workloads[id] == map[]
    ensures Filed(workloads, pending - {id}, leadOf, perLeads)
  {
  }

  /** Files every issue with a non-empty score map under its top scorer, with
      that scorer's score. */
  method GroupByLead(workloads: map<Id, Scores>) returns (perLeads: map<Option<Id>, map<Id, int>>)
    ensures forall id | id in workloads && workloads[id] != map[] ::
              exists lead | lead in perLeads :: id in perLeads[lead]
    ensures forall lead, id | lead in perLeads && id in perLeads[lead] ::
              id in workloads && IsTop(workloads[id], lead) && perLeads[lead][id] == workloads[id][lead]
    ensures forall lead, lead', id | lead in perLeads && lead' in perLeads && id in perLeads[lead] && id in perLeads[lead'] ::
              lead == lead'
    ensures forall lead | lead in perLeads :: perLeads[lead] != map[]
  {
    perLeads := map[];
    ghost var leadOf: map<Id, Option<Id>> := map[];
    var pending := workloads.Keys;
    while pending != {}
      invariant Filed(workloads, pending, leadOf, perLeads)
      decreases pending
    {
      var id :| id in pending;
      var scores := workloads[id];
      if scores != map[] {
        var lead := TopScorer(scores);
        FileOne(workloads, pending, leadOf, perLeads, id, lead);
        var group := if lead in perLeads then perLeads[lead] else map[];
        perLeads := perLeads[lead := group[id := scores[lead]]];
        leadOf := leadOf[id := lead];
      } else {
        SkipOne(workloads, pending, leadOf, perLeads, id);
      }
      pending := pending - {id};
    }
    forall id | id in workloads && workloads[id] != map[]
      ensures exists lead | lead in perLeads :: id in perLeads[lead]
    {
      assert leadOf[id] in perLeads && id in perLeads[leadOf[id]];
    }
    forall lead, lead', id | lead in perLeads && lead' in perLeads && id in perLeads[lead] && id in perLeads[lead']
      ensures lead == lead'
    {
      assert leadOf[id] == lead && leadOf[id] == lead';
    }
  }
}
