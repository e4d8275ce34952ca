/**
 * `SubjectUtils`: the single-purpose steps the subjects service is built
 * from. Lookups receive the repository call as a function, so that a query
 * that throws can be told apart from one that finds nothing.
 */
module SubjectUtils {
  import opened JsValues
  import opened JsStrings
  import opened Exceptions
  import opened NullSafetyGuard
  import opened Entities
  import opened Dtos
  import opened Repository

  /** The longest subject name the service accepts, after trimming. */
  const SUBJECT_NAME_MAX_LENGTH: int := 100

  /** The cleaned input of a subject create or update. */
  datatype SubjectInput = SubjectInput(name: string, description: Input<string>)

  /** `validateSubjectInput`: the body must be present and its name must
      clean to 1..100 characters; the description is passed through as it
      is. */
  function ValidateSubjectInput(dto: Input<SubjectDto>): (r: Result<SubjectInput>)
    ensures !dto.Defined? ==> r == Failure(BadRequest(NullMessage("Subject DTO")))
    ensures dto.Defined? ==>
              (r.Success? <==> dto.value.name.Defined? && !AllWhitespace(dto.value.name.value)
                               && |Trim(dto.value.name.value)| <= SUBJECT_NAME_MAX_LENGTH)
    ensures dto.Defined? && r.Failure? ==>
              r.error == ValidateAndCleanString(dto.value.name, "Subject name", SUBJECT_NAME_MAX_LENGTH).error
    ensures r.Success? ==> r.value.name == Trim(dto.value.name.value) && IsTrimmed(r.value.name)
                           && 1 <= |r.value.name| <= SUBJECT_NAME_MAX_LENGTH
    ensures r.Success? ==> r.value.description == dto.value.description
  {
    var body := RequireNonNull(dto, "Subject DTO");
    if body.Failure? then Failure(body.error)
    else
      var name := ValidateAndCleanString(body.value.name, "Subject name", SUBJECT_NAME_MAX_LENGTH);
      if name.Failure? then Failure(name.error)
      else Success(SubjectInput(name.value, body.value.description))
  }

  /** `if (!subject.competencies) subject.competencies = []`. */
  function WithCompetencyList(subject: Subject): (s: Subject)
    ensures s.competencies.Defined?
    ensures s.id == subject.id && s.name == subject.name && s.description == subject.description
    ensures subject.competencies.Defined? ==> s == subject
    ensures !subject.competencies.Defined? ==> s.competencies == Defined([])
  {
    if subject.competencies.Defined? then subject else subject.(competencies := Defined([]))
  }

  /** `findSubjectByIdOrThrow`: a bad-request for an id at or below zero, the
      query's own error if it throws, not-found when no row has the id, and
      otherwise the loaded subject with a competency list that is never
      null. */
  function FindSubjectByIdOrThrow(id: int, findOne: int -> Call<Option<Subject>>): (r: Result<Subject>)
    ensures id <= 0 ==> r == Failure(BadRequest(InvalidIdMessage("Subject", Defined(Num(id)))))
    ensures id > 0 && findOne(id).Threw? ==> r == Failure(QueryFailed(findOne(id).reason))
    ensures id > 0 && findOne(id) == Returned(None) ==> r == Failure(SubjectNotFound(id))
    ensures r.Success? <==> id > 0 && findOne(id).Returned? && findOne(id).value.Some?
    ensures r.Success? ==> r.value == WithCompetencyList(findOne(id).value.value)
    ensures r.Success? ==> r.value.competencies.Defined?
  {
    var validId := ValidateId(Defined(Num(id)), "Subject");
    if validId.Failure? then Failure(validId.error)
    else
      match findOne(validId.value)
      case Threw(reason) => Failure(QueryFailed(reason))
      case Returned(None) => Failure(SubjectNotFound(validId.value))
      case Returned(Some(subject)) => Success(WithCompetencyList(subject))
  }

  /** `findSubjectByName`: no lookup for an empty or whitespace name; the
      trimmed name is looked up, and a query that throws counts as no
      match. */
  function FindSubjectByName(name: string, findOne: string -> Call<Option<Subject>>): (r: Option<Subject>)
    ensures AllWhitespace(name) ==> r == None
    ensures !AllWhitespace(name) && findOne(Trim(name)).Threw? ==> r == None
    ensures r.Some? <==> !AllWhitespace(name) && findOne(Trim(name)).Returned? && findOne(Trim(name)).value.Some?
    ensures r.Some? ==> r == findOne(Trim(name)).value
  {
    if IsNullOrEmpty(Defined(name)) then None
    else
      match findOne(Trim(name))
      case Returned(found) => found
      case Threw(_) => None
  }

  /** `ensureUniqueSubjectName`: already-exists when the lookup finds a
      subject other than `excludeId` (`null` excludes nothing). */
  function EnsureUniqueSubjectName(name: string, excludeId: Option<int>, findOne: string -> Call<Option<Subject>>): (r: Result<()>)
    ensures r.Failure? <==> FindSubjectByName(name, findOne).Some? && excludeId != Some(FindSubjectByName(name, findOne).value.id)
    ensures r.Failure? ==> r.error == SubjectAlreadyExists(name)
  {
    var existing := FindSubjectByName(name, findOne);
    if existing.Some? && excludeId != Some(existing.value.id) then Failure(SubjectAlreadyExists(name))
    else Success(())
  }

  /** Against a consistent store, a cleaned name is refused exactly when a
      stored subject other than `excludeId` has that name. */
  lemma EnsureUniqueSubjectNameAgainstStore(t: Tables, name: string, excludeId: Option<int>)
    requires t.Valid() && IsTrimmed(name) && name != ""
    ensures EnsureUniqueSubjectName(name, excludeId, SubjectNameLookup(t)).Failure? <==>
              exists id | id in t.subjects :: t.subjects[id].name == name && excludeId != Some(id)
  {
    TrimmedNonEmpty(name);
    TrimOfTrimmed(name);
    FindByNameIffTaken(t, name, 0);
    if exists id | id in t.subjects :: t.subjects[id].name == name && excludeId != Some(id) {
      var id :| id in t.subjects && t.subjects[id].name == name && excludeId != Some(id);
      assert t.SubjectNameTaken(name);
    }
  }

  // ---------------------------------------------------------------------
  // validateSubjectsArray

  /** The subjects `validateSubjectsArray` keeps: the non-null entries, in
      order, each with a competency list that is never null. */
  function KeptSubjects(subjects: seq<Input<Subject>>): (r: seq<Subject>)
    ensures |r| <= |subjects|
    ensures forall s | s in r :: s.competencies.Defined?
  {
    if subjects == [] then []
    else (if subjects[0].Defined? then [WithCompetencyList(subjects[0].value)] else []) + KeptSubjects(subjects[1..])
  }

  /** The kept subjects of a concatenation are the kept subjects of each
      part, concatenated: the filter keeps the order of the survivors. */
  lemma {:induction false} KeptSubjectsAppend(xs: seq<Input<Subject>>, ys: seq<Input<Subject>>)
    ensures KeptSubjects(xs + ys) == KeptSubjects(xs) + KeptSubjects(ys)
  {
    if xs != [] {
      assert (xs + ys)[0] == xs[0];
      assert (xs + ys)[1..] == xs[1..] + ys;
      KeptSubjectsAppend(xs[1..], ys);
    } else {
      assert xs + ys == ys;
    }
  }

  /** A subject survives exactly when it comes from a non-null entry. */
  lemma {:induction false} KeptSubjectsMembership(subjects: seq<Input<Subject>>, s: Subject)
    ensures s in KeptSubjects(subjects) <==>
              exists i | 0 <= i < |subjects| :: subjects[i].Defined? && s == WithCompetencyList(subjects[i].value)
  {
    if subjects != [] {
      KeptSubjectsMembership(subjects[1..], s);
      if exists i | 0 <= i < |subjects| :: subjects[i].Defined? && s == WithCompetencyList(subjects[i].value) {
        var i :| 0 <= i < |subjects| && subjects[i].Defined? && s == WithCompetencyList(subjects[i].value);
        if i > 0 {
          assert subjects[1..][i - 1] == subjects[i];
        }
      }
      if exists i | 0 <= i < |subjects[1..]| :: subjects[1..][i].Defined? && s == WithCompetencyList(subjects[1..][i].value) {
        var i :| 0 <= i < |subjects[1..]| && subjects[1..][i].Defined? && s == WithCompetencyList(subjects[1..][i].value);
        assert subjects[i + 1] == subjects[1..][i];
      }
    }
  }

  /** Entries that are all present and already carry their competencies
      come through unchanged. */
  lemma {:induction false} KeptSubjectsOfLoaded(subjects: seq<Subject>)
    requires forall s | s in subjects :: s.competencies.Defined?
    ensures KeptSubjects(seq(|subjects|, i requires 0 <= i < |subjects| => Defined(subjects[i]))) == subjects
  {
    var wrapped := seq(|subjects|, i requires 0 <= i < |subjects| => Defined(subjects[i]));
    if subjects != [] {
      var rest := subjects[1..];
      KeptSubjectsOfLoaded(rest);
      assert wrapped[1..] == seq(|rest|, i requires 0 <= i < |rest| => Defined(rest[i]));
      assert subjects[0] in subjects;
    }
  }

  /** `validateSubjectsArray`: a null array is read as empty; null entries
      are dropped and the rest gain a competency list if they lack one. */
  method ValidateSubjectsArray(subjects: Input<seq<Input<Subject>>>) returns (validated: seq<Subject>)
    ensures validated == KeptSubjects(if subjects.Defined? then subjects.value else [])
  {
    var safeSubjects := if subjects.Defined? then subjects.value else [];
    validated := [];
    var i := 0;
    while i < |safeSubjects|
      invariant 0 <= i <= |safeSubjects|
      invariant validated == KeptSubjects(safeSubjects[..i])
    {
      var subject := safeSubjects[i];
      KeptSubjectsAppend(safeSubjects[..i], [subject]);
      assert safeSubjects[..i + 1] == safeSubjects[..i] + [subject];
      assert [subject][1..] == [];
      if subject.Defined? {
        validated := validated + [WithCompetencyList(subject.value)];
      }
      i := i + 1;
    }
    assert safeSubjects[..i] == safeSubjects;
  }

  // ---------------------------------------------------------------------
  // Writes

  /** `createSubjectEntity`: a new, unsaved row with the cleaned name and the
      description as given (a missing description is stored as null). */
  function CreateSubjectEntity(data: SubjectInput): (row: SubjectRow)
    ensures row.name == data.name
    ensures data.description.Defined? ==> row.description == Some(data.description.value)
    ensures !data.description.Defined? ==> row.description == None
  {
    SubjectRow(data.name, ToOption(data.description))
  }

  /** `saveSubjectSafely` on a new subject: the store assigns the next id,
      or refuses a taken name, using up that id all the same. */
  method SaveNewSubjectSafely(db: Database, row: SubjectRow) returns (r: Result<Subject>)
    requires db.Valid()
    modifies db
    ensures db.Valid()
    ensures old(db.tables.SubjectNameTaken(row.name)) ==>
              r == Failure(QueryFailed(UNIQUE_VIOLATION)) && db.tables == old(db.tables)
              && db.nextSubjectId == old(db.nextSubjectId) + 1 && db.nextCompetencyId == old(db.nextCompetencyId)
    ensures !old(db.tables.SubjectNameTaken(row.name)) ==>
              r == Success(Subject(old(db.nextSubjectId), row.name, row.description, Undefined))
              && old(db.nextSubjectId) !in old(db.tables.subjects)
              && db.tables == old(db.tables).(subjects := old(db.tables.subjects)[old(db.nextSubjectId) := row],
                                              subjectOrder := old(db.tables.subjectOrder) + [old(db.nextSubjectId)])
              && db.nextSubjectId == old(db.nextSubjectId) + 1 && db.nextCompetencyId == old(db.nextCompetencyId)
  {
    var saved := db.InsertSubject(row);
    if saved.Failure? {
      return Failure(saved.error);
    }
    r := Success(Subject(saved.value, row.name, row.description, Undefined));
  }

  /** `saveSubjectSafely` on a loaded subject: its row is rewritten, unless
      another subject already has its name. */
  method SaveSubjectSafely(db: Database, subject: Subject) returns (r: Result<Subject>)
    requires db.Valid() && subject.id in db.tables.subjects
    modifies db
    ensures db.Valid()
    ensures var clash := exists other | other in old(db.tables.subjects) && other != subject.id ::
                           old(db.tables.subjects)[other].name == subject.name;
            (clash ==> r == Failure(QueryFailed(UNIQUE_VIOLATION)) && unchanged(db))
            && (!clash ==> r == Success(subject)
                           && db.tables == old(db.tables).(subjects := old(db.tables.subjects)[subject.id := SubjectRow(subject.name, subject.description)])
                           && db.nextSubjectId == old(db.nextSubjectId) && db.nextCompetencyId == old(db.nextCompetencyId))
  {
    var saved := db.UpdateSubject(subject.id, SubjectRow(subject.name, subject.description));
    if saved.Failure? {
      return Failure(saved.error);
    }
    r := Success(subject);
  }

  /** `updateSubjectFields`: a truthy name is cleaned again and replaces
      the old one; a truthy description replaces the old one, so an empty
      description leaves it as it is; nothing else changes. */
  function UpdateSubjectFields(subject: Subject, updateData: SubjectDto): (r: Result<Subject>)
    ensures Truthy(updateData.name) ==>
              (r.Success? <==> ValidateAndCleanString(updateData.name, "Subject name", SUBJECT_NAME_MAX_LENGTH).Success?)
    ensures !Truthy(updateData.name) ==> r.Success?
    ensures r.Failure? ==> r.error == ValidateAndCleanString(updateData.name, "Subject name", SUBJECT_NAME_MAX_LENGTH).error
    ensures r.Success? ==> r.value.name == (if Truthy(updateData.name) then Trim(updateData.name.value) else subject.name)
    ensures r.Success? ==> r.value.description == (if Truthy(updateData.description) then Some(updateData.description.value)
                                                   else subject.description)
    ensures r.Success? ==> r.value.id == subject.id && r.value.competencies == subject.competencies
  {
    var named :-
      if Truthy(updateData.name) then
        var safeName :- ValidateAndCleanString(updateData.name, "Subject name", SUBJECT_NAME_MAX_LENGTH);
        Success(subject.(name := safeName))
      else Success(subject);
    if Truthy(updateData.description) then Success(named.(description := Some(updateData.description.value)))
    else Success(named)
  }

  /** Applying the same update twice is applying it once. */
  lemma {:induction false} UpdateSubjectFieldsIdempotent(subject: Subject, updateData: SubjectDto)
    requires UpdateSubjectFields(subject, updateData).Success?
    ensures UpdateSubjectFields(UpdateSubjectFields(subject, updateData).value, updateData)
            == UpdateSubjectFields(subject, updateData)
  {
  }

  /** `removeSubjectSafely`: a bad-request for a missing subject, otherwise
      the store removes the subject together with its competencies. */
  method RemoveSubjectSafely(db: Database, subject: Input<Subject>) returns (r: Result<()>)
    requires db.Valid()
    modifies db
    ensures db.Valid()
    ensures !subject.Defined? ==> r == Failure(BadRequest(NullMessage("subject"))) && unchanged(db)
    ensures subject.Defined? ==>
              r == Success(())
              && db.tables == old(db.tables).CascadeDelete(subject.value.id)
              && db.nextSubjectId == old(db.nextSubjectId) && db.nextCompetencyId == old(db.nextCompetencyId)
  {
    var present := RequireNonNull(subject, "subject");
    if present.Failure? {
      return Failure(present.error);
    }
    db.DeleteSubject(present.value.id);
    r := Success(());
  }
}
