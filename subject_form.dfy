/**
 * `SubjectForm`: the create/edit form for a subject. `handleSubmit` trims
 * both fields, refuses a blank name, sends an empty description as
 * absent, and clears the fields when creating.
 */
module SubjectForm {
  import opened JsValues
  import opened JsStrings
  import opened UiTypes
  import opened Dtos
  import NullSafetyGuard
  import SubjectUtils

  /** `subject?.name || ''`. */
  function InitialName(subject: Option<UiSubject>): (name: string)
    ensures subject.Some? ==> name == subject.value.name
    ensures subject.None? ==> name == ""
  {
    if subject.Some? && subject.value.name != "" then subject.value.name else ""
  }

  /** `subject?.description || ''`. */
  function InitialDescription(subject: Option<UiSubject>): (description: string)
    ensures subject.Some? && subject.value.description.Some? ==> description == subject.value.description.value
    ensures subject.None? || subject.value.description.None? ==> description == ""
  {
    if subject.Some? && subject.value.description.Some? then subject.value.description.value else ""
  }

  /** What `handleSubmit` hands to `onSubmit` for the fields as typed:
      nothing when the name is blank, otherwise the trimmed name and the
      trimmed description, the latter absent when blank. */
  function Submission(name: string, description: string): (r: Option<SubjectRequest>)
    ensures r.Some? <==> !AllWhitespace(name)
    ensures r.Some? ==> r.value.name == Trim(name) && IsTrimmed(r.value.name) && r.value.name != ""
    ensures r.Some? ==> (r.value.description.Some? <==> !AllWhitespace(description))
    ensures r.Some? && r.value.description.Some? ==>
              r.value.description.value == Trim(description) && IsTrimmed(r.value.description.value)
  {
    TrimEmptyIffAllWhitespace(name);
    TrimEmptyIffAllWhitespace(description);
    TrimIsCore(name);
    TrimIsCore(description);
    if Trim(name) == "" then None
    else Some(SubjectRequest(Trim(name), if Trim(description) == "" then None else Some(Trim(description))))
  }

  /** Submitting the submitted values again sends the same request. */
  lemma ResubmitIsStable(name: string, description: string)
    requires Submission(name, description).Some?
    ensures var sent := Submission(name, description).value;
            Submission(sent.name, if sent.description.Some? then sent.description.value else "") == Some(sent)
  {
    TrimIdempotent(name);
    TrimIdempotent(description);
    TrimEmptyIffAllWhitespace(Trim(description));
  }

  /** A submitted name of at most 100 characters is accepted by the
      service's own name check, unchanged. The request body's `@Length(2,
      100)` still refuses a one-character name. */
  lemma SubmittedNamePassesService(name: string, description: string)
    requires Submission(name, description).Some? && |Trim(name)| <= 100
    ensures var sent := Submission(name, description).value;
            var dto := SubjectDto(Defined(sent.name), if sent.description.Some? then Defined(sent.description.value) else Undefined);
            SubjectUtils.ValidateSubjectInput(Defined(dto)).Success?
            && SubjectUtils.ValidateSubjectInput(Defined(dto)).value.name == sent.name
  {
    var sent := Submission(name, description).value;
    NullSafetyGuard.ValidateAndCleanStringAccepts(sent.name, "Subject name", SubjectUtils.SUBJECT_NAME_MAX_LENGTH);
  }

  /** A one-character name passes the form but not the request body. */
  lemma OneCharacterNameFailsBody()
    ensures Submission("x", "").Some?
    ensures !ValidUpdateSubjectDto(SubjectDto(Defined("x"), Undefined))
  {
    assert "x"[0] == 'x' && !IsWhitespace('x');
  }

  class SubjectFormState {
    /** The subject being edited, or none when creating. */
    const subject: Option<UiSubject>
    var name: string
    var description: string

    constructor(subject: Option<UiSubject>)
      ensures this.subject == subject
      ensures name == InitialName(subject) && description == InitialDescription(subject)
    {
      this.subject := subject;
      name := InitialName(subject);
      description := InitialDescription(subject);
    }

    /** `handleSubmit`: returns what is handed to `onSubmit`, if anything.
        After a submission the fields are cleared when creating and kept
        when editing; a refused submission changes nothing. */
    method HandleSubmit() returns (submitted: Option<SubjectRequest>)
      modifies this
      ensures submitted == Submission(old(name), old(description))
      ensures submitted.Some? && subject.None? ==> name == "" && description == ""
      ensures !(submitted.Some? && subject.None?) ==> name == old(name) && description == old(description)
    {
      if Trim(name) == "" {
        return None;
      }
      var trimmedDescription := Trim(description);
      submitted := Some(SubjectRequest(Trim(name), if trimmedDescription == "" then None else Some(trimmedDescription)));
      if subject.None? {
        name := "";
        description := "";
      }
    }
  }
}
