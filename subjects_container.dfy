/**
 * `SubjectsContainer`: the search filter over the subject list and the
 * three totals shown above it.
 */
module SubjectsContainer {
  import opened JsValues
  import opened JsStrings
  import opened UiTypes
  import opened UseSubjects

  // ---------------------------------------------------------------------
  // The search filter

  /** A subject matches a search term when its name, or the name of one of
      its competencies, contains the term, both lower-cased. */
  predicate Matches(subject: UiSubject, searchTerm: string) {
    var term := Lower(searchTerm);
    Includes(Lower(subject.name), term)
    || exists i | 0 <= i < |subject.competencies| :: Includes(Lower(subject.competencies[i].name), term)
  }

  /** `filteredSubjects`: the matching subjects, in their order. */
  function FilteredSubjects(subjects: seq<UiSubject>, searchTerm: string): (r: seq<UiSubject>)
    ensures Subsequence(r, subjects)
    ensures forall s :: s in r <==> s in subjects && Matches(s, searchTerm)
  {
    if subjects == [] then []
    else
      var rest := FilteredSubjects(subjects[1..], searchTerm);
      assert forall s | s in subjects[1..] :: s in subjects;
      if Matches(subjects[0], searchTerm) then
        assert ([subjects[0]] + rest)[1..] == rest;
        [subjects[0]] + rest
      else rest
  }

  /** With an empty search term every subject is shown. */
  lemma {:induction false} EmptySearchKeepsAll(subjects: seq<UiSubject>)
    ensures FilteredSubjects(subjects, "") == subjects
  {
    if subjects != [] {
      IncludesEmpty(Lower(subjects[0].name));
      EmptySearchKeepsAll(subjects[1..]);
      assert [subjects[0]] + subjects[1..] == subjects;
    }
  }

  /** Lower-casing twice is lower-casing once. */
  lemma LowerIdempotent(s: string)
    ensures Lower(Lower(s)) == Lower(s)
  {
    forall i | 0 <= i < |s|
      ensures Lower(Lower(s))[i] == Lower(s)[i]
    {
      assert !('A' <= Lower(s)[i] <= 'Z');
    }
  }

  /** The case of the search term does not matter. */
  lemma {:induction false} SearchIgnoresCase(subjects: seq<UiSubject>, searchTerm: string)
    ensures FilteredSubjects(subjects, Lower(searchTerm)) == FilteredSubjects(subjects, searchTerm)
  {
    if subjects != [] {
      LowerIdempotent(searchTerm);
      SearchIgnoresCase(subjects[1..], searchTerm);
    }
  }

  /** Filtering the shown list again by the same term shows the same list. */
  lemma {:induction false} FilterIdempotent(subjects: seq<UiSubject>, searchTerm: string)
    ensures FilteredSubjects(FilteredSubjects(subjects, searchTerm), searchTerm) == FilteredSubjects(subjects, searchTerm)
  {
    if subjects != [] {
      FilterIdempotent(subjects[1..], searchTerm);
      var rest := FilteredSubjects(subjects[1..], searchTerm);
      if Matches(subjects[0], searchTerm) {
        var r := [subjects[0]] + rest;
        assert r[0] == subjects[0] && r[1..] == rest;
      }
    }
  }

  // ---------------------------------------------------------------------
  // The totals

  /** All competencies of all subjects, subject by subject. */
  function AllCompetencies(subjects: seq<UiSubject>): seq<UiCompetency> {
    if subjects == [] then [] else subjects[0].competencies + AllCompetencies(subjects[1..])
  }

  /** `subjects.reduce((sum, s) => sum + s.competencies.length, 0)`. */
  function CompetencyCountSum(subjects: seq<UiSubject>): int {
    if subjects == [] then 0
    else CompetencyCountSum(subjects[..|subjects| - 1]) + |subjects[|subjects| - 1].competencies|
  }

  /** `competencies.reduce((sum, c) => sum + c.marks, 0)`. */
  function MarksSum(competencies: seq<UiCompetency>): int {
    if competencies == [] then 0
    else MarksSum(competencies[..|competencies| - 1]) + competencies[|competencies| - 1].marks
  }

  /** `subjects.reduce((sum, s) => sum + <marks of s>, 0)`. */
  function SubjectMarksSum(subjects: seq<UiSubject>): int {
    if subjects == [] then 0
    else SubjectMarksSum(subjects[..|subjects| - 1]) + MarksSum(subjects[|subjects| - 1].competencies)
  }

  lemma {:induction false} AllCompetenciesAppend(xs: seq<UiSubject>, ys: seq<UiSubject>)
    ensures AllCompetencies(xs + ys) == AllCompetencies(xs) + AllCompetencies(ys)
  {
    if xs == [] {
      assert xs + ys == ys;
    } else {
      var zs := xs + ys;
      assert zs[0] == xs[0];
      assert zs[1..] == xs[1..] + ys;
      AllCompetenciesAppend(xs[1..], ys);
      calc {
        AllCompetencies(zs);
        zs[0].competencies + AllCompetencies(zs[1..]);
        xs[0].competencies + (AllCompetencies(xs[1..]) + AllCompetencies(ys));
        (xs[0].competencies + AllCompetencies(xs[1..])) + AllCompetencies(ys);
      }
    }
  }

  lemma {:induction false} MarksSumAppend(xs: seq<UiCompetency>, ys: seq<UiCompetency>)
    ensures MarksSum(xs + ys) == MarksSum(xs) + MarksSum(ys)
    decreases |ys|
  {
    if ys == [] {
      assert xs + ys == xs;
    } else {
      var init := ys[..|ys| - 1];
      MarksSumAppend(xs, init);
      assert (xs + ys)[..|xs + ys| - 1] == xs + init;
    }
  }

  /** The competency total counts every competency of every subject. */
  lemma {:induction false} CompetencyCountSumIsCount(subjects: seq<UiSubject>)
    ensures CompetencyCountSum(subjects) == |AllCompetencies(subjects)|
  {
    if subjects != [] {
      var init := subjects[..|subjects| - 1];
      var last := subjects[|subjects| - 1];
      CompetencyCountSumIsCount(init);
      AllCompetenciesAppend(init, [last]);
      assert init + [last] == subjects;
      assert AllCompetencies([last]) == last.competencies + AllCompetencies([]);
    }
  }

  /** The marks total adds the marks of every competency of every subject. */
  lemma {:induction false} SubjectMarksSumIsSum(subjects: seq<UiSubject>)
    ensures SubjectMarksSum(subjects) == MarksSum(AllCompetencies(subjects))
  {
    if subjects != [] {
      var init := subjects[..|subjects| - 1];
      var last := subjects[|subjects| - 1];
      SubjectMarksSumIsSum(init);
      AllCompetenciesAppend(init, [last]);
      assert init + [last] == subjects;
      assert AllCompetencies([last]) == last.competencies + AllCompetencies([]);
      assert last.competencies + [] == last.competencies;
      MarksSumAppend(AllCompetencies(init), last.competencies);
    }
  }

  /** The three totals. */
  datatype Stats = Stats(totalSubjects: int, totalCompetencies: int, totalMarks: int)

  /** `stats`: the number of subjects, the number of their competencies
      and the sum of those competencies' marks. */
  function ComputeStats(subjects: seq<UiSubject>): (stats: Stats)
    ensures stats.totalSubjects == |subjects|
    ensures stats.totalCompetencies == |AllCompetencies(subjects)|
    ensures stats.totalMarks == MarksSum(AllCompetencies(subjects))
  {
    CompetencyCountSumIsCount(subjects);
    SubjectMarksSumIsSum(subjects);
    Stats(|subjects|, CompetencyCountSum(subjects), SubjectMarksSum(subjects))
  }

  /** With every mark in 0..10, the marks total lies between 0 and ten times
      the number of competencies. */
  lemma {:induction false} MarksSumBounds(competencies: seq<UiCompetency>)
    requires forall c | c in competencies :: 0 <= c.marks <= 10
    ensures 0 <= MarksSum(competencies) <= 10 * |competencies|
  {
    if competencies != [] {
      var init := competencies[..|competencies| - 1];
      assert forall c | c in init :: c in competencies;
      assert competencies[|competencies| - 1] in competencies;
      MarksSumBounds(init);
    }
  }

  /** A created subject adds its competencies to the total. */
  lemma CreatedSubjectAddsItsCompetencies(prev: seq<UiSubject>, newSubject: UiSubject)
    ensures ComputeStats(AppendSubject(prev, newSubject)).totalCompetencies
            == ComputeStats(prev).totalCompetencies + |newSubject.competencies|
  {
    AllCompetenciesAppend(prev, [newSubject]);
    assert AllCompetencies([newSubject]) == newSubject.competencies + AllCompetencies([]);
  }

  /** Updating a competency leaves the number of competencies as it was. */
  lemma {:induction false} UpdatedCompetencyKeepsCount(prev: seq<UiSubject>, id: string, updated: UiCompetency)
    ensures |AllCompetencies(ReplaceCompetency(prev, id, updated))| == |AllCompetencies(prev)|
  {
    if prev != [] {
      var r := ReplaceCompetency(prev, id, updated);
      UpdatedCompetencyKeepsCount(prev[1..], id, updated);
      assert r[1..] == ReplaceCompetency(prev[1..], id, updated);
    }
  }

  /** Deleting a competency never raises the number of competencies. */
  lemma {:induction false} DeletedCompetencyLowersCount(prev: seq<UiSubject>, id: string)
    ensures |AllCompetencies(RemoveCompetency(prev, id))| <= |AllCompetencies(prev)|
  {
    if prev != [] {
      var r := RemoveCompetency(prev, id);
      DeletedCompetencyLowersCount(prev[1..], id);
      assert r[1..] == RemoveCompetency(prev[1..], id);
    }
  }
}
