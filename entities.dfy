/**
 * The two persisted entities, `Subject` and `Competency`, as the services
 * see them once loaded, the rows the store keeps for them, and the store
 * constraints their column declarations impose.
 */
module Entities {
  import opened JsValues

  /** The inclusive bounds of the `marks` check constraint. */
  const MIN_MARKS: int := 0
  const MAX_MARKS: int := 10

  /** A loaded subject. `competencies` is `Undefined` when the relation was
      not requested, and may be `Null` when the loader leaves it unset. */
  datatype Subject = Subject(id: int, name: string, description: Option<string>, competencies: Input<seq<Competency>>)

  /** A loaded competency. `subject` is `Undefined` when the relation was
      not requested and `Null` when it was requested but could not be
      resolved. `subjectId` is the `subject_id` foreign-key column. */
  datatype Competency = Competency(id: int, name: string, marks: int, subjectId: int, subject: Input<Subject>)

  /** The stored columns of a subject row (the id is the key). */
  datatype SubjectRow = SubjectRow(name: string, description: Option<string>)

  /** The stored columns of a competency row (the id is the key). */
  datatype CompetencyRow = CompetencyRow(name: string, marks: int, subjectId: int)

  /** The `marks` check constraint: `"marks" >= 0 AND "marks" <= 10`. */
  predicate MarksInRange(marks: int) {
    MIN_MARKS <= marks <= MAX_MARKS
  }

  /** The unique index on `subject.name`. */
  predicate UniqueSubjectNames(subjects: map<int, SubjectRow>) {
    forall a, b | a in subjects && b in subjects && subjects[a].name == subjects[b].name :: a == b
  }

  /** The unique index on the pair (`competency.name`, `competency.subject`). */
  predicate UniqueCompetencyNames(competencies: map<int, CompetencyRow>) {
    forall a, b | a in competencies && b in competencies
                  && competencies[a].name == competencies[b].name
                  && competencies[a].subjectId == competencies[b].subjectId :: a == b
  }

  /** Every stored competency satisfies the marks check constraint. */
  predicate AllMarksInRange(competencies: map<int, CompetencyRow>) {
    forall c | c in competencies :: MarksInRange(competencies[c].marks)
  }

  /** The non-null foreign key: every competency names an existing subject. */
  predicate ReferencesExist(subjects: map<int, SubjectRow>, competencies: map<int, CompetencyRow>) {
    forall c | c in competencies :: competencies[c].subjectId in subjects
  }

  /** All store constraints of the two tables together. */
  predicate Constraints(subjects: map<int, SubjectRow>, competencies: map<int, CompetencyRow>) {
    UniqueSubjectNames(subjects) && UniqueCompetencyNames(competencies)
    && AllMarksInRange(competencies) && ReferencesExist(subjects, competencies)
  }
}
