/**
 * The records the frontend keeps: subjects and competencies as the API
 * returns them, with string ids, and the request bodies its forms build.
 */
module UiTypes {
  import opened JsValues

  /** A competency as the frontend holds it. */
  datatype UiCompetency = UiCompetency(id: string, name: string, marks: int, subjectId: string)

  /** A subject as the frontend holds it, with its competencies. */
  datatype UiSubject = UiSubject(id: string, name: string, description: Option<string>, competencies: seq<UiCompetency>)

  /** The body of a create-subject request. */
  datatype SubjectRequest = SubjectRequest(name: string, description: Option<string>)

  /** The body of a create-competency request, with the subject it goes to. */
  datatype CompetencyRequest = CompetencyRequest(name: string, marks: int, subjectId: string)

  /** `xs` is `ys` with some elements left out and the rest in order. */
  predicate Subsequence<T(==)>(xs: seq<T>, ys: seq<T>)
    decreases |ys|
  {
    xs == [] || (ys != [] && ((xs[0] == ys[0] && Subsequence(xs[1..], ys[1..])) || Subsequence(xs, ys[1..])))
  }

  /** The ids of a list of subjects, in order. */
  function SubjectIds(subjects: seq<UiSubject>): (ids: seq<string>)
    ensures |ids| == |subjects|
    ensures forall i | 0 <= i < |subjects| :: ids[i] == subjects[i].id
  {
    seq(|subjects|, i requires 0 <= i < |subjects| => subjects[i].id)
  }
}
