/**
 * `CompetencyUtils`: the single-purpose steps the competencies service is
 * built from. As in `SubjectUtils`, lookups receive the repository call as
 * a function.
 */
module CompetencyUtils {
  import opened JsValues
  import opened JsStrings
  import opened Exceptions
  import opened NullSafetyGuard
  import opened Entities
  import opened Dtos
  import opened Repository

  /** The longest competency name the service accepts, after trimming. */
  const COMPETENCY_NAME_MAX_LENGTH: int := 100

  const MARKS_OUT_OF_RANGE: string := "Marks must be between 0 and 10"

  /** The cleaned fields of a competency create or update; a field is
      absent exactly when the body left it `undefined`. */
  datatype CompetencyInput = CompetencyInput(name: Option<string>, marks: Option<int>)

  /** The marks `validateCompetencyInput` stores for a given marks field:
      `null` and non-numeric values read as 0. */
  function SafeMarks(marks: Input<Numeric>): (m: int)
    ensures marks.Defined? && marks.value.Num? ==> m == marks.value.n
    ensures !(marks.Defined? && marks.value.Num?) ==> m == 0
  {
    SafeNumber(marks, 0)
  }

  /** `validateCompetencyInput`: the body must be present; a name that is
      not `undefined` must clean to 1..100 characters; marks that are not
      `undefined` must read as a number in 0..10. The name is checked
      first. Fields left `undefined` stay absent from the result. */
  function ValidateCompetencyInput(dto: Input<CompetencyDto>): (r: Result<CompetencyInput>)
    ensures !dto.Defined? ==> r == Failure(BadRequest(NullMessage("Competency DTO")))
    ensures r.Success? <==>
              dto.Defined?
              && (dto.value.name.Undefined? || ValidateAndCleanString(dto.value.name, "Competency name", COMPETENCY_NAME_MAX_LENGTH).Success?)
              && (dto.value.marks.Undefined? || MarksInRange(SafeMarks(dto.value.marks)))
    ensures dto.Defined? && !dto.value.name.Undefined?
            && ValidateAndCleanString(dto.value.name, "Competency name", COMPETENCY_NAME_MAX_LENGTH).Failure? ==>
              r == Failure(ValidateAndCleanString(dto.value.name, "Competency name", COMPETENCY_NAME_MAX_LENGTH).error)
    ensures dto.Defined? && (dto.value.name.Undefined? || ValidateAndCleanString(dto.value.name, "Competency name", COMPETENCY_NAME_MAX_LENGTH).Success?)
            && !dto.value.marks.Undefined? && !MarksInRange(SafeMarks(dto.value.marks)) ==>
              r == Failure(BadRequest(MARKS_OUT_OF_RANGE))
    ensures r.Success? ==> (r.value.name.Some? <==> !dto.value.name.Undefined?)
                           && (r.value.marks.Some? <==> !dto.value.marks.Undefined?)
    ensures r.Success? && r.value.name.Some? ==>
              r.value.name.value == Trim(dto.value.name.value)
              && IsTrimmed(r.value.name.value) && 1 <= |r.value.name.value| <= COMPETENCY_NAME_MAX_LENGTH
    ensures r.Success? && r.value.marks.Some? ==>
              r.value.marks.value == SafeMarks(dto.value.marks) && MarksInRange(r.value.marks.value)
  {
    var body := RequireNonNull(dto, "Competency DTO");
    if body.Failure? then Failure(body.error)
    else
      var name := if body.value.name.Undefined? then Success(None)
                  else
                    var cleaned := ValidateAndCleanString(body.value.name, "Competency name", COMPETENCY_NAME_MAX_LENGTH);
                    if cleaned.Failure? then Failure(cleaned.error) else Success(Some(cleaned.value));
      if name.Failure? then Failure(name.error)
      else if body.value.marks.Undefined? then Success(CompetencyInput(name.value, None))
      else
        var safeMarks := SafeNumber(body.value.marks, 0);
        if safeMarks < 0 || safeMarks > 10 then Failure(BadRequest(MARKS_OUT_OF_RANGE))
        else Success(CompetencyInput(name.value, Some(safeMarks)))
  }

  /** Both ends of the marks range are accepted and the values just outside
      it are refused. */
  lemma MarksBoundaries(name: Input<string>)
    requires name.Undefined?
    ensures ValidateCompetencyInput(Defined(CompetencyDto(name, Defined(Num(0))))) == Success(CompetencyInput(None, Some(0)))
    ensures ValidateCompetencyInput(Defined(CompetencyDto(name, Defined(Num(10))))) == Success(CompetencyInput(None, Some(10)))
    ensures ValidateCompetencyInput(Defined(CompetencyDto(name, Defined(Num(-1))))) == Failure(BadRequest(MARKS_OUT_OF_RANGE))
    ensures ValidateCompetencyInput(Defined(CompetencyDto(name, Defined(Num(11))))) == Failure(BadRequest(MARKS_OUT_OF_RANGE))
  {
  }

  /** `null` or non-numeric marks are not refused: they are stored as 0. */
  lemma NullMarksReadAsZero(name: Input<string>, marks: Input<Numeric>)
    requires name.Undefined? && (marks.Null? || marks == Defined(NaN))
    ensures ValidateCompetencyInput(Defined(CompetencyDto(name, marks))) == Success(CompetencyInput(None, Some(0)))
  {
  }

  /** A body that passes `CreateCompetencyDto` always passes the marks check,
      and passes the service's check exactly when its name is not all
      whitespace; both fields then come through. */
  lemma ValidCreateBodyPassesService(dto: CompetencyDto)
    requires ValidCreateCompetencyDto(dto)
    ensures ValidateCompetencyInput(Defined(dto)).Success? <==> !AllWhitespace(dto.name.value)
    ensures ValidateCompetencyInput(Defined(dto)).Success? ==>
              ValidateCompetencyInput(Defined(dto)).value == CompetencyInput(Some(Trim(dto.name.value)), Some(dto.marks.value.n))
  {
    var name := dto.name.value;
    var a, b := TrimCuts(name);
    assert |Trim(name)| <= COMPETENCY_NAME_MAX_LENGTH;
    var cleaned := ValidateAndCleanString(dto.name, "Competency name", COMPETENCY_NAME_MAX_LENGTH);
    assert cleaned.Success? <==> !AllWhitespace(name);
    assert MarksInRange(SafeMarks(dto.marks));
  }

  /** The two name checks differ: a one-character name passes the service
      but not the body validation, and a two-space name passes the body
      validation but not the service. */
  lemma NameChecksDiffer()
    ensures var short := CompetencyDto(Defined("a"), Defined(Num(5)));
            !ValidCreateCompetencyDto(short) && ValidateCompetencyInput(Defined(short)).Success?
    ensures var blank := CompetencyDto(Defined("  "), Defined(Num(5)));
            ValidCreateCompetencyDto(blank) && ValidateCompetencyInput(Defined(blank)).Failure?
  {
    var short := CompetencyDto(Defined("a"), Defined(Num(5)));
    assert "a"[0] == 'a' && !IsWhitespace('a');
    assert !AllWhitespace("a");
    assert TrimStart("a") == "a" && TrimEnd("a") == "a";
    var blank := CompetencyDto(Defined("  "), Defined(Num(5)));
    assert AllWhitespace("  ");
  }

  /** `findSubjectByIdOrThrow`, without relations: a bad-request for an id at
      or below zero, the query's own error if it throws, not-found when no
      row has the id, and otherwise the loaded subject as it is. */
  function FindSubjectByIdOrThrow(id: int, findOne: int -> Call<Option<Subject>>): (r: Result<Subject>)
    ensures id <= 0 ==> r == Failure(BadRequest(InvalidIdMessage("Subject", Defined(Num(id)))))
    ensures id > 0 && findOne(id).Threw? ==> r == Failure(QueryFailed(findOne(id).reason))
    ensures id > 0 && findOne(id) == Returned(None) ==> r == Failure(SubjectNotFound(id))
    ensures r.Success? <==> id > 0 && findOne(id).Returned? && findOne(id).value.Some?
    ensures r.Success? ==> r.value == findOne(id).value.value
  {
    var validId := ValidateId(Defined(Num(id)), "Subject");
    if validId.Failure? then Failure(validId.error)
    else
      match findOne(validId.value)
      case Threw(reason) => Failure(QueryFailed(reason))
      case Returned(None) => Failure(SubjectNotFound(validId.value))
      case Returned(Some(subject)) => Success(subject)
  }

  const SUBJECT_RELATION_MISSING: string := "Competency subject relation is missing"

  /** `findCompetencyByIdOrThrow`: a bad-request for an id at or below zero,
      the query's own error if it throws, not-found when no row has the id,
      a plain (non-HTTP) error when the row comes without its subject, and
      otherwise the loaded competency. */
  function FindCompetencyByIdOrThrow(id: int, findOne: int -> Call<Option<Competency>>): (r: Result<Competency>)
    ensures id <= 0 ==> r == Failure(BadRequest(InvalidIdMessage("Competency", Defined(Num(id)))))
    ensures id > 0 && findOne(id).Threw? ==> r == Failure(QueryFailed(findOne(id).reason))
    ensures id > 0 && findOne(id) == Returned(None) ==> r == Failure(CompetencyNotFound(id))
    ensures id > 0 && findOne(id).Returned? && findOne(id).value.Some? && !findOne(id).value.value.subject.Defined? ==>
              r == Failure(InternalError(SUBJECT_RELATION_MISSING))
    ensures r.Success? <==> id > 0 && findOne(id).Returned? && findOne(id).value.Some? && findOne(id).value.value.subject.Defined?
    ensures r.Success? ==> r.value == findOne(id).value.value
  {
    var validId := ValidateId(Defined(Num(id)), "Competency");
    if validId.Failure? then Failure(validId.error)
    else
      match findOne(validId.value)
      case Threw(reason) => Failure(QueryFailed(reason))
      case Returned(None) => Failure(CompetencyNotFound(validId.value))
      case Returned(Some(competency)) =>
        if !competency.subject.Defined? then Failure(InternalError(SUBJECT_RELATION_MISSING))
        else Success(competency)
  }

  /** In a consistent store a stored competency always comes with its
      subject, so the lookup never raises the plain error: it finds the
      competency or reports not-found. */
  lemma FindCompetencyAgainstStore(t: Tables, id: int)
    requires t.Valid() && id > 0
    ensures FindCompetencyByIdOrThrow(id, CompetencyLookup(t)).Success? <==> id in t.competencies
    ensures id !in t.competencies ==> FindCompetencyByIdOrThrow(id, CompetencyLookup(t)) == Failure(CompetencyNotFound(id))
    ensures id in t.competencies ==>
              FindCompetencyByIdOrThrow(id, CompetencyLookup(t)).value == t.CompetencyEntity(id, true)
              && t.CompetencyEntity(id, true).subject == Defined(t.SubjectEntity(t.competencies[id].subjectId))
  {
    if id in t.competencies {
      assert t.competencies[id].subjectId in t.subjects;
    }
  }

  /** `findCompetencyByNameInSubject`: no match for an empty or whitespace
      name, for a subject id at or below zero, or when the query throws
      (the id check sits inside the `try`, so its error is swallowed too);
      otherwise what the query finds under the trimmed name. */
  function FindCompetencyByNameInSubject(name: Input<string>, subjectId: int, findOne: (string, int) -> Call<Option<Competency>>)
    : (r: Option<Competency>)
    ensures IsNullOrEmpty(name) || subjectId <= 0 ==> r == None
    ensures r.Some? <==> name.Defined? && !AllWhitespace(name.value) && subjectId > 0
                         && findOne(Trim(name.value), subjectId).Returned? && findOne(Trim(name.value), subjectId).value.Some?
    ensures r.Some? ==> r == findOne(Trim(name.value), subjectId).value
  {
    if IsNullOrEmpty(name) then None
    else
      var validSubjectId := ValidateId(Defined(Num(subjectId)), "Subject");
      if validSubjectId.Failure? then None
      else
        match findOne(Trim(name.value), validSubjectId.value)
        case Returned(found) => found
        case Threw(_) => None
  }

  /** `ensureUniqueCompetencyName`: already-exists, naming the competency
      and its subject, when the lookup finds a competency other than
      `excludeId` (`null` excludes nothing). */
  function EnsureUniqueCompetencyName(name: Input<string>, subjectId: int, subjectName: string, excludeId: Option<int>,
                                      findOne: (string, int) -> Call<Option<Competency>>): (r: Result<()>)
    ensures var existing := FindCompetencyByNameInSubject(name, subjectId, findOne);
            r.Failure? <==> existing.Some? && excludeId != Some(existing.value.id)
    ensures r.Failure? ==> name.Defined? && r.error == CompetencyAlreadyExists(name.value, subjectName)
  {
    var existing := FindCompetencyByNameInSubject(name, subjectId, findOne);
    if existing.Some? && excludeId != Some(existing.value.id) then Failure(CompetencyAlreadyExists(name.value, subjectName))
    else Success(())
  }

  /** Against a consistent store, a cleaned name is refused in subject
      `subjectId` exactly when another competency of that subject, other
      than `excludeId`, has that name. */
  lemma EnsureUniqueCompetencyNameAgainstStore(t: Tables, name: string, subjectId: int, subjectName: string, excludeId: Option<int>)
    requires t.Valid() && IsTrimmed(name) && name != "" && subjectId > 0
    ensures EnsureUniqueCompetencyName(Defined(name), subjectId, subjectName, excludeId, CompetencyNameLookup(t)).Failure? <==>
              exists id | id in t.competencies :: t.competencies[id].name == name && t.competencies[id].subjectId == subjectId
                                                   && excludeId != Some(id)
  {
    TrimmedNonEmpty(name);
    TrimOfTrimmed(name);
    FindByNameIffTaken(t, name, subjectId);
    if exists id | id in t.competencies :: t.competencies[id].name == name && t.competencies[id].subjectId == subjectId
                                          && excludeId != Some(id) {
      var id :| id in t.competencies && t.competencies[id].name == name && t.competencies[id].subjectId == subjectId
                && excludeId != Some(id);
      assert t.CompetencyNameTaken(name, subjectId);
    }
  }

  // ---------------------------------------------------------------------
  // validateCompetenciesArray

  /** `if (!competency.subject) competency.subject = parentSubject`. */
  function WithSubject(competency: Competency, parent: Subject): (c: Competency)
    ensures c.subject.Defined?
    ensures c.id == competency.id && c.name == competency.name && c.marks == competency.marks && c.subjectId == competency.subjectId
    ensures competency.subject.Defined? ==> c == competency
    ensures !competency.subject.Defined? ==> c.subject == Defined(parent)
  {
    if competency.subject.Defined? then competency else competency.(subject := Defined(parent))
  }

  /** The competencies `validateCompetenciesArray` keeps: the non-null
      entries, in order, each with a subject that is never null. */
  function KeptCompetencies(competencies: seq<Input<Competency>>, parent: Subject): (r: seq<Competency>)
    ensures |r| <= |competencies|
    ensures forall c | c in r :: c.subject.Defined?
  {
    if competencies == [] then []
    else (if competencies[0].Defined? then [WithSubject(competencies[0].value, parent)] else [])
         + KeptCompetencies(competencies[1..], parent)
  }

  /** The kept competencies of a concatenation are the kept competencies of
      each part, concatenated: the filter keeps the order of the survivors. */
  lemma {:induction false} KeptCompetenciesAppend(xs: seq<Input<Competency>>, ys: seq<Input<Competency>>, parent: Subject)
    ensures KeptCompetencies(xs + ys, parent) == KeptCompetencies(xs, parent) + KeptCompetencies(ys, parent)
  {
    if xs != [] {
      assert (xs + ys)[0] == xs[0];
      assert (xs + ys)[1..] == xs[1..] + ys;
      KeptCompetenciesAppend(xs[1..], ys, parent);
    } else {
      assert xs + ys == ys;
    }
  }

  /** A competency survives exactly when it comes from a non-null entry. */
  lemma {:induction false} KeptCompetenciesMembership(competencies: seq<Input<Competency>>, parent: Subject, c: Competency)
    ensures c in KeptCompetencies(competencies, parent) <==>
              exists i | 0 <= i < |competencies| :: competencies[i].Defined? && c == WithSubject(competencies[i].value, parent)
  {
    if competencies != [] {
      var rest := competencies[1..];
      KeptCompetenciesMembership(rest, parent, c);
      if exists i | 0 <= i < |competencies| :: competencies[i].Defined? && c == WithSubject(competencies[i].value, parent) {
        var i :| 0 <= i < |competencies| && competencies[i].Defined? && c == WithSubject(competencies[i].value, parent);
        if i > 0 {
          assert rest[i - 1] == competencies[i];
        }
      }
      if exists i | 0 <= i < |rest| :: rest[i].Defined? && c == WithSubject(rest[i].value, parent) {
        var i :| 0 <= i < |rest| && rest[i].Defined? && c == WithSubject(rest[i].value, parent);
        assert competencies[i + 1] == rest[i];
      }
    }
  }

  /** Entries that are all present and already carry their subject come
      through unchanged. */
  lemma {:induction false} KeptCompetenciesOfLoaded(competencies: seq<Competency>, parent: Subject)
    requires forall c | c in competencies :: c.subject.Defined?
    ensures KeptCompetencies(seq(|competencies|, i requires 0 <= i < |competencies| => Defined(competencies[i])), parent) == competencies
  {
    var wrapped := seq(|competencies|, i requires 0 <= i < |competencies| => Defined(competencies[i]));
    if competencies != [] {
      var rest := competencies[1..];
      KeptCompetenciesOfLoaded(rest, parent);
      assert wrapped[1..] == seq(|rest|, i requires 0 <= i < |rest| => Defined(rest[i]));
      assert competencies[0] in competencies;
    }
  }

  /** `validateCompetenciesArray`: a null array is read as empty; null
      entries are dropped and the rest gain the parent subject if they lack
      one. */
  method ValidateCompetenciesArray(competencies: Input<seq<Input<Competency>>>, parentSubject: Subject)
    returns (validated: seq<Competency>)
    ensures validated == KeptCompetencies(if competencies.Defined? then competencies.value else [], parentSubject)
  {
    var safeCompetencies := if competencies.Defined? then competencies.value else [];
    validated := [];
    var i := 0;
    while i < |safeCompetencies|
      invariant 0 <= i <= |safeCompetencies|
      invariant validated == KeptCompetencies(safeCompetencies[..i], parentSubject)
    {
      var competency := safeCompetencies[i];
      KeptCompetenciesAppend(safeCompetencies[..i], [competency], parentSubject);
      assert safeCompetencies[..i + 1] == safeCompetencies[..i] + [competency];
      assert [competency][1..] == [];
      if competency.Defined? {
        validated := validated + [WithSubject(competency.value, parentSubject)];
      }
      i := i + 1;
    }
    assert safeCompetencies[..i] == safeCompetencies;
  }

  // ---------------------------------------------------------------------
  // Writes

  /** A competency built by `createCompetencyEntity` and not yet saved. The
      name and marks are whatever validation produced, so they may be
      missing; the store's not-null constraint refuses such a row. */
  datatype NewCompetency = NewCompetency(name: Option<string>, marks: Option<int>, subject: Subject, subjectId: int)

  /** `createCompetencyEntity`: the validated name and marks, the subject,
      and a `subject_id` equal to the subject's id. */
  function CreateCompetencyEntity(data: CompetencyInput, subject: Subject): (c: NewCompetency)
    ensures c.subjectId == subject.id && c.subject == subject
    ensures c.name == data.name && c.marks == data.marks
  {
    NewCompetency(data.name, data.marks, subject, subject.id)
  }

  /** `saveCompetencySafely` on a new competency: the store draws the next
      id, then checks the row; a refused row uses up the id all the same. */
  method SaveNewCompetencySafely(db: Database, competency: NewCompetency) returns (r: Result<Competency>)
    requires db.Valid()
    modifies db
    ensures db.Valid()
    ensures r.Failure? ==>
              r.error.QueryFailed? && db.tables == old(db.tables)
              && db.nextCompetencyId == old(db.nextCompetencyId) + 1 && db.nextSubjectId == old(db.nextSubjectId)
    ensures competency.name.None? || competency.marks.None? ==> r == Failure(QueryFailed(NOT_NULL_VIOLATION))
    ensures r.Success? <==> competency.name.Some? && competency.marks.Some? && MarksInRange(competency.marks.value)
                            && !old(db.tables.CompetencyNameTaken(competency.name.value, competency.subjectId))
                            && competency.subjectId in old(db.tables.subjects)
    ensures r.Success? ==>
              r.value == Competency(old(db.nextCompetencyId), competency.name.value, competency.marks.value,
                                    competency.subjectId, Defined(competency.subject))
              && old(db.nextCompetencyId) !in old(db.tables.competencies)
              && db.tables == old(db.tables).(
                   competencies := old(db.tables.competencies)[old(db.nextCompetencyId) :=
                                     CompetencyRow(competency.name.value, competency.marks.value, competency.subjectId)],
                   competencyOrder := old(db.tables.competencyOrder) + [old(db.nextCompetencyId)])
              && db.nextCompetencyId == old(db.nextCompetencyId) + 1 && db.nextSubjectId == old(db.nextSubjectId)
  {
    var saved := db.InsertCompetency(competency.name, competency.marks, competency.subjectId);
    if saved.Failure? {
      return Failure(saved.error);
    }
    r := Success(Competency(saved.value, competency.name.value, competency.marks.value, competency.subjectId, Defined(competency.subject)));
  }

  /** `saveCompetencySafely` on a loaded competency: its row is rewritten,
      unless the marks break the check or another competency of the subject
      has its name. */
  method SaveCompetencySafely(db: Database, competency: Competency) returns (r: Result<Competency>)
    requires db.Valid() && competency.id in db.tables.competencies
    requires competency.subjectId == db.tables.competencies[competency.id].subjectId
    modifies db
    ensures db.Valid()
    ensures var clash := exists other | other in old(db.tables.competencies) && other != competency.id ::
                           old(db.tables.competencies)[other].name == competency.name
                           && old(db.tables.competencies)[other].subjectId == competency.subjectId;
            (!MarksInRange(competency.marks) ==> r == Failure(QueryFailed(CHECK_VIOLATION)) && unchanged(db))
            && (MarksInRange(competency.marks) && clash ==> r == Failure(QueryFailed(UNIQUE_VIOLATION)) && unchanged(db))
            && (MarksInRange(competency.marks) && !clash ==>
                  r == Success(competency)
                  && db.tables == old(db.tables).(competencies := old(db.tables.competencies)[competency.id :=
                                                    CompetencyRow(competency.name, competency.marks, competency.subjectId)])
                  && db.nextSubjectId == old(db.nextSubjectId) && db.nextCompetencyId == old(db.nextCompetencyId))
  {
    var saved := db.UpdateCompetency(competency.id, CompetencyRow(competency.name, competency.marks, competency.subjectId));
    if saved.Failure? {
      return Failure(saved.error);
    }
    r := Success(competency);
  }

  /** `updateCompetencyFields`: each validated field that is present
      replaces the old value, so marks of 0 are applied; nothing else
      changes. */
  function UpdateCompetencyFields(competency: Competency, updateData: CompetencyInput): (c: Competency)
    ensures c.name == (if updateData.name.Some? then updateData.name.value else competency.name)
    ensures c.marks == (if updateData.marks.Some? then updateData.marks.value else competency.marks)
    ensures c.id == competency.id && c.subjectId == competency.subjectId && c.subject == competency.subject
  {
    var named := if updateData.name.Some? then competency.(name := updateData.name.value) else competency;
    if updateData.marks.Some? then named.(marks := updateData.marks.value) else named
  }

  /** Updating a competency whose marks are in range with a validated body
      leaves its marks in range. */
  lemma UpdateKeepsMarksInRange(competency: Competency, dto: Input<CompetencyDto>)
    requires MarksInRange(competency.marks) && ValidateCompetencyInput(dto).Success?
    ensures MarksInRange(UpdateCompetencyFields(competency, ValidateCompetencyInput(dto).value).marks)
  {
  }

  /** An update with no fields changes nothing. */
  lemma EmptyUpdateChangesNothing(competency: Competency)
    ensures ValidateCompetencyInput(Defined(CompetencyDto(Undefined, Undefined))) == Success(CompetencyInput(None, None))
    ensures UpdateCompetencyFields(competency, CompetencyInput(None, None)) == competency
  {
  }

  /** `removeCompetencySafely`: a bad-request for a missing competency,
      otherwise the store removes it. */
  method RemoveCompetencySafely(db: Database, competency: Input<Competency>) returns (r: Result<()>)
    requires db.Valid()
    modifies db
    ensures db.Valid()
    ensures !competency.Defined? ==> r == Failure(BadRequest(NullMessage("competency"))) && unchanged(db)
    ensures competency.Defined? ==>
              r == Success(())
              && db.tables == old(db.tables).(competencies := old(db.tables.competencies) - {competency.value.id},
                                              competencyOrder := Remove(old(db.tables.competencyOrder), competency.value.id))
              && db.nextSubjectId == old(db.nextSubjectId) && db.nextCompetencyId == old(db.nextCompetencyId)
  {
    var present := RequireNonNull(competency, "competency");
    if present.Failure? {
      return Failure(present.error);
    }
    db.DeleteCompetency(present.value.id);
    r := Success(());
  }
}
