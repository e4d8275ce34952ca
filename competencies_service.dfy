/**
 * `CompetenciesService`: create, list, fetch, update and delete the
 * competencies of a subject over the database. Every failure goes through
 * `HandleServiceError`, which passes the exception on unchanged.
 */
module CompetenciesService {
  import opened JsValues
  import opened Exceptions
  import opened NullSafetyGuard
  import opened Entities
  import opened Dtos
  import opened Repository
  import opened CompetencyUtils

  /** A competency of subject `subjectId` other than `id` is called `name`. */
  ghost predicate NameTakenByOther(t: Tables, name: string, subjectId: int, id: int) {
    exists other | other in t.competencies && other != id ::
      t.competencies[other].name == name && t.competencies[other].subjectId == subjectId
  }

  /** `validatedData.name!`: the validated name, or `undefined` when the body
      had none (the non-null assertion checks nothing at run time). */
  function NameArgument(name: Option<string>): (r: Input<string>)
    ensures r.Defined? <==> name.Some?
    ensures r.Defined? ==> r.value == name.value
  {
    if name.Some? then Defined(name.value) else Undefined
  }

  /** The competencies a subject lists in a consistent store come with
      their subject, which is that subject. */
  lemma CompetenciesBySubjectAreLoaded(t: Tables, subjectId: int)
    requires t.Valid() && subjectId in t.subjects
    ensures forall c | c in t.CompetenciesBySubject(subjectId) :: c.subject == Defined(t.SubjectEntity(subjectId))
    ensures forall c | c in t.CompetenciesBySubject(subjectId) :: c.subjectId == subjectId && c.id in t.competencies
    ensures forall id | id in t.competencies && t.competencies[id].subjectId == subjectId ::
              t.CompetencyEntity(id, true) in t.CompetenciesBySubject(subjectId)
  {
    var cs := t.CompetenciesBySubject(subjectId);
    var ids := t.CompetencyIdsOf(subjectId);
    forall c | c in cs
      ensures c.subject == Defined(t.SubjectEntity(subjectId)) && c.subjectId == subjectId && c.id in t.competencies
    {
      var i :| 0 <= i < |cs| && cs[i] == c;
      assert ids[i] in ids;
    }
    forall id | id in t.competencies && t.competencies[id].subjectId == subjectId
      ensures t.CompetencyEntity(id, true) in cs
    {
      assert id in t.competencyOrder;
      assert id in ids;
      var i :| 0 <= i < |ids| && ids[i] == id;
      assert cs[i] == t.CompetencyEntity(id, true);
    }
  }

  class CompetenciesService {
    /** The repository the service was constructed with. */
    const db: Database

    constructor(db: Database)
      ensures this.db == db
    {
      this.db := db;
    }

    /** `createCompetency`: the log line before the `try` reads the body's
        name, so a missing body fails there with a `TypeError` that no
        handler turns into an HTTP error. Otherwise the body is validated
        before the subject is looked up; the name is checked against the
        subject's competencies; the new competency is returned with its
        subject. A body without a name or without marks gets past the
        service and is refused by the store's not-null constraint, which
        uses up an id but writes no row. Every other refusal writes
        nothing. */
    method CreateCompetency(subjectId: int, dto: Input<CompetencyDto>) returns (r: Result<Competency>)
      requires db.Valid()
      modifies db
      ensures db.Valid()
      ensures !dto.Defined? ==> r == Failure(PropertyReadError(dto, "name")) && unchanged(db)
      ensures var input := ValidateCompetencyInput(dto);
              (dto.Defined? && input.Failure? ==> r == Failure(input.error) && unchanged(db))
              && (input.Success? && subjectId <= 0 ==>
                    r == Failure(BadRequest(InvalidIdMessage("Subject", Defined(Num(subjectId))))) && unchanged(db))
              && (input.Success? && subjectId > 0 && subjectId !in old(db.tables.subjects) ==>
                    r == Failure(SubjectNotFound(subjectId)) && unchanged(db))
              && (input.Success? && subjectId in old(db.tables.subjects) && input.value.name.Some?
                  && old(db.tables.CompetencyNameTaken(input.value.name.value, subjectId)) ==>
                    r == Failure(CompetencyAlreadyExists(input.value.name.value, old(db.tables.subjects[subjectId].name)))
                    && unchanged(db))
              && (input.Success? && subjectId in old(db.tables.subjects)
                  && (input.value.name.None? || input.value.marks.None?)
                  && !(input.value.name.Some? && old(db.tables.CompetencyNameTaken(input.value.name.value, subjectId))) ==>
                    r == Failure(QueryFailed(NOT_NULL_VIOLATION)) && db.tables == old(db.tables)
                    && db.nextCompetencyId == old(db.nextCompetencyId) + 1 && db.nextSubjectId == old(db.nextSubjectId))
      ensures var input := ValidateCompetencyInput(dto);
              r.Success? <==> input.Success? && subjectId in old(db.tables.subjects)
                              && input.value.name.Some? && input.value.marks.Some?
                              && !old(db.tables.CompetencyNameTaken(input.value.name.value, subjectId))
      ensures var input := ValidateCompetencyInput(dto);
              r.Success? ==>
                var id := old(db.nextCompetencyId);
                var row := CompetencyRow(input.value.name.value, input.value.marks.value, subjectId);
                r.value == Competency(id, row.name, row.marks, subjectId, Defined(old(db.tables.SubjectEntity(subjectId))))
                && id !in old(db.tables.competencies)
                && db.tables == old(db.tables).(competencies := old(db.tables.competencies)[id := row],
                                                competencyOrder := old(db.tables.competencyOrder) + [id])
                && db.nextCompetencyId == id + 1 && db.nextSubjectId == old(db.nextSubjectId)
    {
      if !dto.Defined? {
        return Failure(PropertyReadError(dto, "name"));
      }
      var validatedData := ValidateCompetencyInput(dto);
      if validatedData.Failure? {
        return HandleServiceError(validatedData.error, "create competency");
      }
      var subject := FindSubjectByIdOrThrow(subjectId, SubjectLookup(db.tables, false));
      if subject.Failure? {
        return HandleServiceError(subject.error, "create competency");
      }
      var name := validatedData.value.name;
      if name.Some? {
        EnsureUniqueCompetencyNameAgainstStore(db.tables, name.value, subjectId, subject.value.name, None);
      }
      var unique := EnsureUniqueCompetencyName(NameArgument(name), subjectId, subject.value.name, None,
                                               CompetencyNameLookup(db.tables));
      if unique.Failure? {
        return HandleServiceError(unique.error, "create competency");
      }
      var competency := CreateCompetencyEntity(validatedData.value, subject.value);
      var savedCompetency := SaveNewCompetencySafely(db, competency);
      if savedCompetency.Failure? {
        return HandleServiceError(savedCompetency.error, "create competency");
      }
      r := savedCompetency;
    }

    /** `getCompetenciesBySubject`: bad-request or not-found for the subject
        as for a fetch; otherwise every competency of the subject, each with
        that subject. Nothing is written. */
    method GetCompetenciesBySubject(subjectId: int) returns (r: Result<seq<Competency>>)
      requires db.Valid()
      ensures subjectId <= 0 ==> r == Failure(BadRequest(InvalidIdMessage("Subject", Defined(Num(subjectId)))))
      ensures subjectId > 0 && subjectId !in db.tables.subjects ==> r == Failure(SubjectNotFound(subjectId))
      ensures r.Success? <==> subjectId in db.tables.subjects
      ensures r.Success? ==> r.value == db.tables.CompetenciesBySubject(subjectId)
      ensures r.Success? ==> forall c | c in r.value :: c.subjectId == subjectId && c.subject == Defined(db.tables.SubjectEntity(subjectId))
      ensures r.Success? ==> forall id | id in db.tables.competencies && db.tables.competencies[id].subjectId == subjectId ::
                               db.tables.CompetencyEntity(id, true) in r.value
    {
      var subject := FindSubjectByIdOrThrow(subjectId, SubjectLookup(db.tables, false));
      if subject.Failure? {
        return HandleServiceError(subject.error, "fetch competencies by subject");
      }
      var competencies := db.tables.CompetenciesBySubject(subjectId);
      CompetenciesBySubjectAreLoaded(db.tables, subjectId);
      var loaded := seq(|competencies|, i requires 0 <= i < |competencies| => Defined(competencies[i]));
      var validatedCompetencies := ValidateCompetenciesArray(Defined(loaded), subject.value);
      KeptCompetenciesOfLoaded(competencies, subject.value);
      r := Success(validatedCompetencies);
    }

    /** `getCompetencyById`: bad-request for an id at or below zero,
        not-found for an id no competency has, and otherwise the competency
        with its subject. Nothing is written. */
    method GetCompetencyById(id: int) returns (r: Result<Competency>)
      requires db.Valid()
      ensures id <= 0 ==> r == Failure(BadRequest(InvalidIdMessage("Competency", Defined(Num(id)))))
      ensures id > 0 && id !in db.tables.competencies ==> r == Failure(CompetencyNotFound(id))
      ensures r.Success? <==> id in db.tables.competencies
      ensures r.Success? ==> r.value == db.tables.CompetencyEntity(id, true)
                             && r.value.subject == Defined(db.tables.SubjectEntity(r.value.subjectId))
    {
      if id > 0 {
        FindCompetencyAgainstStore(db.tables, id);
      }
      var competency := FindCompetencyByIdOrThrow(id, CompetencyLookup(db.tables));
      if competency.Failure? {
        return HandleServiceError(competency.error, "fetch competency by ID");
      }
      r := competency;
    }

    /** `updateCompetency`: the competency is looked up first, then the body
        is validated; a new name is checked against the other competencies
        of its subject; the present fields are applied and the row
        rewritten. A refused request writes nothing. */
    method UpdateCompetency(id: int, dto: Input<CompetencyDto>) returns (r: Result<Competency>)
      requires db.Valid()
      modifies db
      ensures db.Valid()
      ensures id <= 0 ==> r == Failure(BadRequest(InvalidIdMessage("Competency", Defined(Num(id))))) && unchanged(db)
      ensures id > 0 && id !in old(db.tables.competencies) ==> r == Failure(CompetencyNotFound(id)) && unchanged(db)
      ensures var input := ValidateCompetencyInput(dto);
              (id in old(db.tables.competencies) && input.Failure? ==> r == Failure(input.error) && unchanged(db))
              && (id in old(db.tables.competencies) && input.Success? && input.value.name.Some?
                  && NameTakenByOther(old(db.tables), input.value.name.value, old(db.tables.competencies[id].subjectId), id) ==>
                    r == Failure(CompetencyAlreadyExists(input.value.name.value,
                                                         old(db.tables.subjects[db.tables.competencies[id].subjectId].name)))
                    && unchanged(db))
      ensures var input := ValidateCompetencyInput(dto);
              r.Success? <==> id in old(db.tables.competencies) && input.Success?
                              && !(input.value.name.Some?
                                   && NameTakenByOther(old(db.tables), input.value.name.value, old(db.tables.competencies[id].subjectId), id))
      ensures r.Success? ==>
                r.value == UpdateCompetencyFields(old(db.tables.CompetencyEntity(id, true)), ValidateCompetencyInput(dto).value)
                && MarksInRange(r.value.marks)
                && db.tables == old(db.tables).(competencies := old(db.tables.competencies)[id :=
                                                  CompetencyRow(r.value.name, r.value.marks, r.value.subjectId)])
                && db.nextSubjectId == old(db.nextSubjectId) && db.nextCompetencyId == old(db.nextCompetencyId)
    {
      if id > 0 {
        FindCompetencyAgainstStore(db.tables, id);
      }
      var found := FindCompetencyByIdOrThrow(id, CompetencyLookup(db.tables));
      if found.Failure? {
        return HandleServiceError(found.error, "update competency");
      }
      var competency := found.value;
      var validatedData := ValidateCompetencyInput(dto);
      if validatedData.Failure? {
        return HandleServiceError(validatedData.error, "update competency");
      }
      var name := validatedData.value.name;
      if name.Some? && name.value != "" && name.value != competency.name {
        EnsureUniqueCompetencyNameAgainstStore(db.tables, name.value, competency.subject.value.id,
                                               competency.subject.value.name, Some(id));
        var unique := EnsureUniqueCompetencyName(Defined(name.value), competency.subject.value.id,
                                                 competency.subject.value.name, Some(id), CompetencyNameLookup(db.tables));
        if unique.Failure? {
          return HandleServiceError(unique.error, "update competency");
        }
      }
      var updated := UpdateCompetencyFields(competency, validatedData.value);
      assert !NameTakenByOther(db.tables, updated.name, updated.subjectId, id);
      var updatedCompetency := SaveCompetencySafely(db, updated);
      assert updatedCompetency.Success?;
      r := updatedCompetency;
    }

    /** `deleteCompetency`: bad-request or not-found as for a fetch;
        otherwise the competency is removed and nothing else changes. */
    method DeleteCompetency(id: int) returns (r: Result<()>)
      requires db.Valid()
      modifies db
      ensures db.Valid()
      ensures id <= 0 ==> r == Failure(BadRequest(InvalidIdMessage("Competency", Defined(Num(id))))) && unchanged(db)
      ensures id > 0 && id !in old(db.tables.competencies) ==> r == Failure(CompetencyNotFound(id)) && unchanged(db)
      ensures r.Success? <==> id in old(db.tables.competencies)
      ensures r.Success? ==>
                db.tables == old(db.tables).(competencies := old(db.tables.competencies) - {id},
                                             competencyOrder := Remove(old(db.tables.competencyOrder), id))
                && db.nextSubjectId == old(db.nextSubjectId) && db.nextCompetencyId == old(db.nextCompetencyId)
    {
      if id > 0 {
        FindCompetencyAgainstStore(db.tables, id);
      }
      var competency := FindCompetencyByIdOrThrow(id, CompetencyLookup(db.tables));
      if competency.Failure? {
        return HandleServiceError(competency.error, "delete competency");
      }
      r := RemoveCompetencySafely(db, Defined(competency.value));
    }
  }
}
