/**
 * The `useSubjects` hook: the subject list the pages show, the loading
 * flag and the fetch error, and the updates each create, update and delete
 * makes to the list once the server has answered. The server's answer is
 * a parameter of each operation; a call that throws leaves the list as it
 * was and is passed on to the caller.
 */
module UseSubjects {
  import opened JsValues
  import opened UiTypes

  const FETCH_ERROR: string := "Failed to fetch subjects"

  // ---------------------------------------------------------------------
  // The updaters passed to `setSubjects`

  /** `[...prev, newSubject]`. */
  function AppendSubject(prev: seq<UiSubject>, newSubject: UiSubject): (r: seq<UiSubject>)
    ensures |r| == |prev| + 1 && r[|prev|] == newSubject
    ensures r[..|prev|] == prev
  {
    prev + [newSubject]
  }

  /** `prev.map(s => s.id === id ? updated : s)`: the entries with that id
      become `updated`, every other entry stays where and what it was. */
  function ReplaceSubject(prev: seq<UiSubject>, id: string, updated: UiSubject): (r: seq<UiSubject>)
    ensures |r| == |prev|
    ensures forall i | 0 <= i < |prev| && prev[i].id == id :: r[i] == updated
    ensures forall i | 0 <= i < |prev| && prev[i].id != id :: r[i] == prev[i]
  {
    seq(|prev|, i requires 0 <= i < |prev| => if prev[i].id == id then updated else prev[i])
  }

  /** `prev.filter(s => s.id !== id)`: the entries with another id, in
      their order. */
  function RemoveSubject(prev: seq<UiSubject>, id: string): (r: seq<UiSubject>)
    ensures forall s :: s in r <==> s in prev && s.id != id
    ensures Subsequence(r, prev)
  {
    if prev == [] then []
    else
      var rest := RemoveSubject(prev[1..], id);
      assert forall s | s in prev[1..] :: s in prev;
      if prev[0].id != id then
        assert ([prev[0]] + rest)[1..] == rest;
        [prev[0]] + rest
      else rest
  }

  /** `competencies.map(c => c.id === id ? updated : c)`. */
  function ReplaceCompetencyIn(competencies: seq<UiCompetency>, id: string, updated: UiCompetency): (r: seq<UiCompetency>)
    ensures |r| == |competencies|
    ensures forall i | 0 <= i < |competencies| && competencies[i].id == id :: r[i] == updated
    ensures forall i | 0 <= i < |competencies| && competencies[i].id != id :: r[i] == competencies[i]
  {
    seq(|competencies|, i requires 0 <= i < |competencies| => if competencies[i].id == id then updated else competencies[i])
  }

  /** `competencies.filter(c => c.id !== id)`. */
  function RemoveCompetencyFrom(competencies: seq<UiCompetency>, id: string): (r: seq<UiCompetency>)
    ensures forall c :: c in r <==> c in competencies && c.id != id
    ensures Subsequence(r, competencies)
    ensures |r| <= |competencies|
  {
    if competencies == [] then []
    else
      var rest := RemoveCompetencyFrom(competencies[1..], id);
      assert forall c | c in competencies[1..] :: c in competencies;
      if competencies[0].id != id then
        assert ([competencies[0]] + rest)[1..] == rest;
        [competencies[0]] + rest
      else rest
  }

  /** The `addCompetency` updater: the new competency is appended to the
      subjects whose id is `subjectId`; every other subject is unchanged. */
  function AddCompetencyTo(prev: seq<UiSubject>, subjectId: string, competency: UiCompetency): (r: seq<UiSubject>)
    ensures |r| == |prev|
    ensures forall i | 0 <= i < |prev| && prev[i].id == subjectId ::
              r[i] == prev[i].(competencies := prev[i].competencies + [competency])
    ensures forall i | 0 <= i < |prev| && prev[i].id != subjectId :: r[i] == prev[i]
  {
    seq(|prev|, i requires 0 <= i < |prev| =>
      if prev[i].id == subjectId then prev[i].(competencies := prev[i].competencies + [competency]) else prev[i])
  }

  /** The `updateCompetency` updater: in every subject, the competencies
      with that id become `updated`; subjects and list lengths stay. */
  function ReplaceCompetency(prev: seq<UiSubject>, id: string, updated: UiCompetency): (r: seq<UiSubject>)
    ensures |r| == |prev|
    ensures forall i | 0 <= i < |prev| ::
              r[i] == prev[i].(competencies := ReplaceCompetencyIn(prev[i].competencies, id, updated))
              && |r[i].competencies| == |prev[i].competencies|
  {
    seq(|prev|, i requires 0 <= i < |prev| =>
      prev[i].(competencies := ReplaceCompetencyIn(prev[i].competencies, id, updated)))
  }

  /** The `deleteCompetency` updater: the competencies with that id are
      dropped from every subject; the subjects stay. */
  function RemoveCompetency(prev: seq<UiSubject>, id: string): (r: seq<UiSubject>)
    ensures |r| == |prev|
    ensures forall i | 0 <= i < |prev| ::
              r[i] == prev[i].(competencies := RemoveCompetencyFrom(prev[i].competencies, id))
              && forall c | c in r[i].competencies :: c.id != id
  {
    seq(|prev|, i requires 0 <= i < |prev| =>
      prev[i].(competencies := RemoveCompetencyFrom(prev[i].competencies, id)))
  }

  // ---------------------------------------------------------------------
  // How the updaters relate

  /** Replacing a subject by a new version with the same id keeps the list
      of ids. */
  lemma ReplaceSubjectKeepsIds(prev: seq<UiSubject>, id: string, updated: UiSubject)
    requires updated.id == id
    ensures SubjectIds(ReplaceSubject(prev, id, updated)) == SubjectIds(prev)
  {
  }

  /** Applying the same subject update twice is applying it once. */
  lemma ReplaceSubjectIdempotent(prev: seq<UiSubject>, id: string, updated: UiSubject)
    ensures ReplaceSubject(ReplaceSubject(prev, id, updated), id, updated) == ReplaceSubject(prev, id, updated)
  {
  }

  /** Removing an id no subject has changes nothing. */
  lemma {:induction false} RemoveAbsentSubject(prev: seq<UiSubject>, id: string)
    requires forall s | s in prev :: s.id != id
    ensures RemoveSubject(prev, id) == prev
  {
    if prev != [] {
      assert prev[0] in prev;
      assert forall s | s in prev[1..] :: s in prev;
      RemoveAbsentSubject(prev[1..], id);
      assert [prev[0]] + prev[1..] == prev;
    }
  }

  /** Removing an id from a concatenation removes it from each part. */
  lemma {:induction false} RemoveSubjectAppend(xs: seq<UiSubject>, ys: seq<UiSubject>, id: string)
    ensures RemoveSubject(xs + ys, id) == RemoveSubject(xs, id) + RemoveSubject(ys, id)
  {
    if xs == [] {
      assert xs + ys == ys;
    } else {
      var zs := xs + ys;
      assert zs[0] == xs[0];
      assert zs[1..] == xs[1..] + ys;
      RemoveSubjectAppend(xs[1..], ys, id);
      var tail := RemoveSubject(xs[1..], id);
      var other := RemoveSubject(ys, id);
      if xs[0].id != id {
        calc {
          RemoveSubject(zs, id);
          [xs[0]] + RemoveSubject(zs[1..], id);
          [xs[0]] + (tail + other);
          ([xs[0]] + tail) + other;
        }
      } else {
        calc {
          RemoveSubject(zs, id);
          RemoveSubject(zs[1..], id);
          tail + other;
        }
      }
    }
  }

  /** Deleting a subject just created, whose id was new, gives back the
      list from before the creation. */
  lemma {:induction false} RemoveUndoesAppend(prev: seq<UiSubject>, newSubject: UiSubject)
    requires forall s | s in prev :: s.id != newSubject.id
    ensures RemoveSubject(AppendSubject(prev, newSubject), newSubject.id) == prev
  {
    RemoveSubjectAppend(prev, [newSubject], newSubject.id);
    RemoveAbsentSubject(prev, newSubject.id);
    assert RemoveSubject([newSubject], newSubject.id) == RemoveSubject([], newSubject.id);
  }

  /** Removing an id no competency has changes nothing. */
  lemma {:induction false} RemoveAbsentCompetency(competencies: seq<UiCompetency>, id: string)
    requires forall c | c in competencies :: c.id != id
    ensures RemoveCompetencyFrom(competencies, id) == competencies
  {
    if competencies != [] {
      assert competencies[0] in competencies;
      assert forall c | c in competencies[1..] :: c in competencies;
      RemoveAbsentCompetency(competencies[1..], id);
      assert [competencies[0]] + competencies[1..] == competencies;
    }
  }

  /** Removing an id from a list ending in a competency with that id drops
      that competency. */
  lemma {:induction false} RemoveCompetencyDropsLast(competencies: seq<UiCompetency>, competency: UiCompetency)
    requires forall c | c in competencies :: c.id != competency.id
    ensures RemoveCompetencyFrom(competencies + [competency], competency.id) == competencies
  {
    if competencies == [] {
      assert [competency][1..] == [];
    } else {
      var xs := competencies + [competency];
      assert xs[0] == competencies[0] && xs[1..] == competencies[1..] + [competency];
      assert competencies[0] in competencies;
      assert forall c | c in competencies[1..] :: c in competencies;
      RemoveCompetencyDropsLast(competencies[1..], competency);
      assert [competencies[0]] + competencies[1..] == competencies;
    }
  }

  /** Deleting a competency just added, whose id was new, gives back the
      list from before the addition. */
  lemma RemoveCompetencyUndoesAdd(prev: seq<UiSubject>, subjectId: string, competency: UiCompetency)
    requires forall s, c | s in prev && c in s.competencies :: c.id != competency.id
    ensures RemoveCompetency(AddCompetencyTo(prev, subjectId, competency), competency.id) == prev
  {
    var added := AddCompetencyTo(prev, subjectId, competency);
    var r := RemoveCompetency(added, competency.id);
    forall i | 0 <= i < |prev|
      ensures r[i] == prev[i]
    {
      assert prev[i] in prev;
      if prev[i].id == subjectId {
        RemoveCompetencyDropsLast(prev[i].competencies, competency);
      } else {
        RemoveAbsentCompetency(prev[i].competencies, competency.id);
      }
    }
  }

  // ---------------------------------------------------------------------
  // The hook's state

  class SubjectsState {
    var subjects: seq<UiSubject>
    var isLoading: bool
    var error: Option<string>

    /** The initial state: no subjects, not loading, no error. */
    constructor()
      ensures subjects == [] && !isLoading && error == None
    {
      subjects := [];
      isLoading := false;
      error := None;
    }

    /** `fetchSubjects`: a successful fetch replaces the list and clears the
        error; a failed one keeps the list and records the error. Loading
        is over either way. */
    method FetchSubjects(response: Call<seq<UiSubject>>)
      modifies this
      ensures !isLoading
      ensures response.Returned? ==> subjects == response.value && error == None
      ensures response.Threw? ==> subjects == old(subjects) && error == Some(FETCH_ERROR)
    {
      isLoading := true;
      error := None;
      match response {
        case Returned(fetched) =>
          subjects := fetched;
        case Threw(_) =>
          error := Some(FETCH_ERROR);
      }
      isLoading := false;
    }

    /** `createSubject`: the created subject is appended; a failure is
        passed on and changes nothing. */
    method CreateSubject(response: Call<UiSubject>) returns (r: Call<UiSubject>)
      modifies this
      ensures r == response
      ensures response.Returned? ==> subjects == AppendSubject(old(subjects), response.value)
      ensures response.Threw? ==> subjects == old(subjects)
      ensures isLoading == old(isLoading) && error == old(error)
    {
      if response.Returned? {
        subjects := AppendSubject(subjects, response.value);
      }
      r := response;
    }

    /** `updateSubject`: the server's version replaces the subject with
        that id. */
    method UpdateSubject(id: string, response: Call<UiSubject>) returns (r: Call<UiSubject>)
      modifies this
      ensures r == response
      ensures response.Returned? ==> subjects == ReplaceSubject(old(subjects), id, response.value)
      ensures response.Threw? ==> subjects == old(subjects)
      ensures isLoading == old(isLoading) && error == old(error)
    {
      if response.Returned? {
        subjects := ReplaceSubject(subjects, id, response.value);
      }
      r := response;
    }

    /** `deleteSubject`: the subject with that id leaves the list. */
    method DeleteSubject(id: string, response: Call<()>) returns (r: Call<()>)
      modifies this
      ensures r == response
      ensures response.Returned? ==> subjects == RemoveSubject(old(subjects), id)
      ensures response.Threw? ==> subjects == old(subjects)
      ensures isLoading == old(isLoading) && error == old(error)
    {
      if response.Returned? {
        subjects := RemoveSubject(subjects, id);
      }
      r := response;
    }

    /** `addCompetency`: the created competency joins the subject named in
        the request. */
    method AddCompetency(data: CompetencyRequest, response: Call<UiCompetency>) returns (r: Call<UiCompetency>)
      modifies this
      ensures r == response
      ensures response.Returned? ==> subjects == AddCompetencyTo(old(subjects), data.subjectId, response.value)
      ensures response.Threw? ==> subjects == old(subjects)
      ensures isLoading == old(isLoading) && error == old(error)
    {
      if response.Returned? {
        subjects := AddCompetencyTo(subjects, data.subjectId, response.value);
      }
      r := response;
    }

    /** `updateCompetency`: the server's version replaces the competency
        with that id wherever it is listed. */
    method UpdateCompetency(id: string, response: Call<UiCompetency>) returns (r: Call<UiCompetency>)
      modifies this
      ensures r == response
      ensures response.Returned? ==> subjects == ReplaceCompetency(old(subjects), id, response.value)
      ensures response.Threw? ==> subjects == old(subjects)
      ensures isLoading == old(isLoading) && error == old(error)
    {
      if response.Returned? {
        subjects := ReplaceCompetency(subjects, id, response.value);
      }
      r := response;
    }

    /** `deleteCompetency`: the competency with that id leaves every
        subject. */
    method DeleteCompetency(id: string, response: Call<()>) returns (r: Call<()>)
      modifies this
      ensures r == response
      ensures response.Returned? ==> subjects == RemoveCompetency(old(subjects), id)
      ensures response.Threw? ==> subjects == old(subjects)
      ensures isLoading == old(isLoading) && error == old(error)
    {
      if response.Returned? {
        subjects := RemoveCompetency(subjects, id);
      }
      r := response;
    }
  }
}
