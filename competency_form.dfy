/**
 * `CompetencyForm`: the add/edit form for a competency. It holds the name
 * and the marks as typed; `handleSubmit` reads the marks with `parseInt`,
 * hands the competency to `onSubmit` when the name is non-empty and the
 * marks are an integer in 0..10, and clears the fields when adding.
 */
module CompetencyForm {
  import opened JsValues
  import opened JsStrings
  import opened UiTypes
  import opened Dtos
  import CompetencyUtils

  /** `competency?.name || ''`. */
  function InitialName(competency: Option<UiCompetency>): (name: string)
    ensures competency.Some? ==> name == competency.value.name
    ensures competency.None? ==> name == ""
  {
    if competency.Some? && competency.value.name != "" then competency.value.name else ""
  }

  /** `competency?.marks?.toString() || ''`. */
  function InitialMarks(competency: Option<UiCompetency>): (marks: string)
    ensures competency.Some? ==> ParseInt(marks) == Num(competency.value.marks)
    ensures competency.None? ==> marks == ""
  {
    if competency.Some? then
      ParseIntOfIntToString(competency.value.marks);
      IntToString(competency.value.marks)
    else ""
  }

  /** What `handleSubmit` hands to `onSubmit` for the fields as typed:
      nothing unless the name is non-empty and the marks read as an integer
      in 0..10. The name goes as typed, untrimmed. */
  function Submission(name: string, marks: string, subjectId: string): (r: Option<CompetencyRequest>)
    ensures r.Some? ==> r.value.name == name && r.value.subjectId == subjectId
                        && r.value.name != "" && 0 <= r.value.marks <= 10
                        && ParseInt(marks) == Num(r.value.marks)
    ensures r.None? <==> name == "" || ParseInt(marks).NaN? || !(0 <= ParseInt(marks).n <= 10)
  {
    var marksValue := ParseInt(marks);
    if name == "" || marksValue.NaN? || marksValue.n < 0 || marksValue.n > 10 then None
    else Some(CompetencyRequest(name, marksValue.n, subjectId))
  }

  /** Opening the form on a competency with a name and marks in range and
      submitting it unchanged sends that competency's name and marks. */
  lemma EditingResubmitsCompetency(competency: UiCompetency, subjectId: string)
    requires competency.name != "" && 0 <= competency.marks <= 10
    ensures Submission(InitialName(Some(competency)), InitialMarks(Some(competency)), subjectId)
            == Some(CompetencyRequest(competency.name, competency.marks, subjectId))
  {
  }

  /** A fresh form submits nothing. */
  lemma EmptyFormSubmitsNothing(subjectId: string)
    ensures Submission(InitialName(None), InitialMarks(None), subjectId) == None
  {
  }

  /** `parseInt("5")` is 5. */
  lemma ParseFive()
    ensures ParseInt("5") == Num(5)
  {
    ParseIntOfDigits("5");
    assert "5"[..0] == "";
  }

  /** The form and the server disagree on names: a name of spaces passes the
      form (and the request body's own checks) but the service refuses it,
      and a one-letter name passes the form but not the request body's
      length check. */
  lemma FormNameCheckIsWeaker(subjectId: string)
    ensures Submission("  ", "5", subjectId) == Some(CompetencyRequest("  ", 5, subjectId))
    ensures ValidCreateCompetencyDto(CompetencyDto(Defined("  "), Defined(Num(5))))
    ensures CompetencyUtils.ValidateCompetencyInput(Defined(CompetencyDto(Defined("  "), Defined(Num(5))))).Failure?
    ensures Submission("a", "5", subjectId).Some?
    ensures !ValidCreateCompetencyDto(CompetencyDto(Defined("a"), Defined(Num(5))))
  {
    ParseFive();
    CompetencyUtils.NameChecksDiffer();
  }

  class CompetencyFormState {
    /** The subject the competency belongs to. */
    const subjectId: string
    /** The competency being edited, or none when adding. */
    const competency: Option<UiCompetency>
    var name: string
    var marks: string

    constructor(subjectId: string, competency: Option<UiCompetency>)
      ensures this.subjectId == subjectId && this.competency == competency
      ensures name == InitialName(competency) && marks == InitialMarks(competency)
    {
      this.subjectId := subjectId;
      this.competency := competency;
      name := InitialName(competency);
      marks := InitialMarks(competency);
    }

    /** `handleSubmit`: returns what is handed to `onSubmit`, if anything.
        After a submission the fields are cleared when adding and kept when
        editing; a refused submission changes nothing. */
    method HandleSubmit() returns (submitted: Option<CompetencyRequest>)
      modifies this
      ensures submitted == Submission(old(name), old(marks), subjectId)
      ensures submitted.Some? && competency.None? ==> name == "" && marks == ""
      ensures !(submitted.Some? && competency.None?) ==> name == old(name) && marks == old(marks)
    {
      var marksValue := ParseInt(marks);
      if name == "" || marksValue.NaN? || marksValue.n < 0 || marksValue.n > 10 {
        return None;
      }
      submitted := Some(CompetencyRequest(name, marksValue.n, subjectId));
      if competency.None? {
        name := "";
        marks := "";
      }
    }
  }
}
