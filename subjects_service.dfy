/**
 * `SubjectsService`: create, list, fetch, update and delete subjects over
 * the database. Every failure goes through `HandleServiceError`, which
 * passes the exception on unchanged.
 */
module SubjectsService {
  import opened JsValues
  import opened JsStrings
  import opened Exceptions
  import opened NullSafetyGuard
  import opened Entities
  import opened Dtos
  import opened Repository
  import opened SubjectUtils

  /** A subject other than `id` is called `name`. */
  ghost predicate NameTakenByOther(t: Tables, name: string, id: int) {
    exists other | other in t.subjects && other != id :: t.subjects[other].name == name
  }

  /** A subject nobody's competencies point to loads with an empty list. */
  lemma NoCompetenciesYet(t: Tables, id: int)
    requires t.Valid() && id in t.subjects
    requires forall c | c in t.competencies :: t.competencies[c].subjectId != id
    ensures t.SubjectWithCompetencies(id) == t.SubjectEntity(id).(competencies := Defined([]))
  {
    t.NoCompetencyIdsOf(id);
  }

  /** The stored subjects, listed once each in creation order. */
  lemma AllSubjectsListsEveryStoredSubject(t: Tables)
    requires t.Valid()
    ensures forall id :: id in t.subjects <==> exists i | 0 <= i < |t.AllSubjects()| :: t.AllSubjects()[i].id == id
  {
    var all := t.AllSubjects();
    forall id
      ensures id in t.subjects <==> exists i | 0 <= i < |all| :: all[i].id == id
    {
      if id in t.subjects {
        assert id in t.subjectOrder;
        var i :| 0 <= i < |t.subjectOrder| && t.subjectOrder[i] == id;
        assert all[i].id == id;
      }
      if exists i | 0 <= i < |all| :: all[i].id == id {
        var i :| 0 <= i < |all| && all[i].id == id;
        assert t.subjectOrder[i] in t.subjectOrder;
      }
    }
  }

  class SubjectsService {
    /** The repository the service was constructed with. */
    const db: Database

    constructor(db: Database)
      ensures this.db == db
    {
      this.db := db;
    }

    /** `getSubjectById`: bad-request for an id at or below zero, not-found
        for an id no subject has, and otherwise the subject with all its
        competencies. Nothing is written. */
    method GetSubjectById(id: int) returns (r: Result<Subject>)
      requires db.Valid()
      ensures id <= 0 ==> r == Failure(BadRequest(InvalidIdMessage("Subject", Defined(Num(id)))))
      ensures id > 0 && id !in db.tables.subjects ==> r == Failure(SubjectNotFound(id))
      ensures r.Success? <==> id in db.tables.subjects
      ensures r.Success? ==> r.value == db.tables.SubjectWithCompetencies(id)
    {
      var subject := FindSubjectByIdOrThrow(id, SubjectLookup(db.tables, true));
      if subject.Failure? {
        return HandleServiceError(subject.error, "fetch subject by ID");
      }
      r := subject;
    }

    /** `getAllSubjects`: every stored subject once, in creation order, each
        with its competencies. Nothing is written. */
    method GetAllSubjects() returns (r: Result<seq<Subject>>)
      requires db.Valid()
      ensures r == Success(db.tables.AllSubjects())
      ensures forall id :: id in db.tables.subjects <==> exists i | 0 <= i < |r.value| :: r.value[i].id == id
    {
      var subjects := db.tables.AllSubjects();
      var loaded := seq(|subjects|, i requires 0 <= i < |subjects| => Defined(subjects[i]));
      var validatedSubjects := ValidateSubjectsArray(Defined(loaded));
      KeptSubjectsOfLoaded(subjects);
      AllSubjectsListsEveryStoredSubject(db.tables);
      r := Success(validatedSubjects);
    }

    /** `createSubject`: the log line before the `try` reads the body's
        name, so a missing body fails there with a `TypeError` that no
        handler turns into an HTTP error. Then validation, the name check
        against every stored subject, and the insert; the new subject is
        fetched back with its (empty) list of competencies. A refused
        request writes nothing. */
    method CreateSubject(dto: Input<SubjectDto>) returns (r: Result<Subject>)
      requires db.Valid()
      modifies db
      ensures db.Valid()
      ensures !dto.Defined? ==> r == Failure(PropertyReadError(dto, "name")) && unchanged(db)
      ensures dto.Defined? ==>
              var input := ValidateSubjectInput(dto);
              (input.Failure? ==> r == Failure(input.error) && unchanged(db))
              && (input.Success? && old(db.tables.SubjectNameTaken(input.value.name)) ==>
                    r == Failure(SubjectAlreadyExists(input.value.name)) && unchanged(db))
              && (input.Success? && !old(db.tables.SubjectNameTaken(input.value.name)) ==>
                    var id := old(db.nextSubjectId);
                    var row := SubjectRow(input.value.name, ToOption(input.value.description));
                    r == Success(Subject(id, row.name, row.description, Defined([])))
                    && id !in old(db.tables.subjects)
                    && db.tables == old(db.tables).(subjects := old(db.tables.subjects)[id := row],
                                                    subjectOrder := old(db.tables.subjectOrder) + [id])
                    && db.nextSubjectId == id + 1 && db.nextCompetencyId == old(db.nextCompetencyId))
    {
      if !dto.Defined? {
        return Failure(PropertyReadError(dto, "name"));
      }
      var validatedData := ValidateSubjectInput(dto);
      if validatedData.Failure? {
        return HandleServiceError(validatedData.error, "create subject");
      }
      var name := validatedData.value.name;
      EnsureUniqueSubjectNameAgainstStore(db.tables, name, None);
      var unique := EnsureUniqueSubjectName(name, None, SubjectNameLookup(db.tables));
      if unique.Failure? {
        return HandleServiceError(unique.error, "create subject");
      }
      var subject := CreateSubjectEntity(validatedData.value);
      var savedSubject := SaveNewSubjectSafely(db, subject);
      assert savedSubject.Success?;
      NoCompetenciesYet(db.tables, savedSubject.value.id);
      r := GetSubjectById(savedSubject.value.id);
    }

    /** `updateSubject`: the subject is looked up first, so a missing
        subject is reported before a bad body; a truthy name is validated
        and checked against the other subjects; then the fields are applied
        and the row rewritten. The result is the updated subject with the
        competencies it was loaded with. A refused request writes nothing. */
    method UpdateSubject(id: int, dto: SubjectDto) returns (r: Result<Subject>)
      requires db.Valid()
      modifies db
      ensures db.Valid()
      ensures id <= 0 ==> r == Failure(BadRequest(InvalidIdMessage("Subject", Defined(Num(id))))) && unchanged(db)
      ensures id > 0 && id !in old(db.tables.subjects) ==> r == Failure(SubjectNotFound(id)) && unchanged(db)
      ensures id in old(db.tables.subjects) && Truthy(dto.name) && ValidateSubjectInput(Defined(dto)).Failure? ==>
                r == Failure(ValidateSubjectInput(Defined(dto)).error) && unchanged(db)
      ensures id in old(db.tables.subjects) && Truthy(dto.name) && ValidateSubjectInput(Defined(dto)).Success?
              && NameTakenByOther(old(db.tables), Trim(dto.name.value), id) ==>
                r == Failure(SubjectAlreadyExists(Trim(dto.name.value))) && unchanged(db)
      ensures r.Success? <==>
                id in old(db.tables.subjects)
                && (Truthy(dto.name) ==> ValidateSubjectInput(Defined(dto)).Success?
                                         && !NameTakenByOther(old(db.tables), Trim(dto.name.value), id))
      ensures r.Success? ==>
                r.value == UpdateSubjectFields(old(db.tables.SubjectWithCompetencies(id)), dto).value
                && db.tables == old(db.tables).(subjects := old(db.tables.subjects)[id := SubjectRow(r.value.name, r.value.description)])
                && db.nextSubjectId == old(db.nextSubjectId) && db.nextCompetencyId == old(db.nextCompetencyId)
    {
      var found := FindSubjectByIdOrThrow(id, SubjectLookup(db.tables, true));
      if found.Failure? {
        return HandleServiceError(found.error, "update subject");
      }
      var subject := found.value;
      if Truthy(dto.name) {
        var validatedData := ValidateSubjectInput(Defined(dto));
        if validatedData.Failure? {
          return HandleServiceError(validatedData.error, "update subject");
        }
        var name := validatedData.value.name;
        EnsureUniqueSubjectNameAgainstStore(db.tables, name, Some(id));
        var unique := EnsureUniqueSubjectName(name, Some(id), SubjectNameLookup(db.tables));
        if unique.Failure? {
          return HandleServiceError(unique.error, "update subject");
        }
      }
      var updated := UpdateSubjectFields(subject, dto);
      assert updated.Success?;
      assert !NameTakenByOther(db.tables, updated.value.name, id);
      var updatedSubject := SaveSubjectSafely(db, updated.value);
      assert updatedSubject.Success?;
      r := updatedSubject;
    }

    /** `deleteSubject`: bad-request or not-found as for a fetch; otherwise
        the subject and every competency of it are removed. */
    method DeleteSubject(id: int) returns (r: Result<()>)
      requires db.Valid()
      modifies db
      ensures db.Valid()
      ensures id <= 0 ==> r == Failure(BadRequest(InvalidIdMessage("Subject", Defined(Num(id))))) && unchanged(db)
      ensures id > 0 && id !in old(db.tables.subjects) ==> r == Failure(SubjectNotFound(id)) && unchanged(db)
      ensures r.Success? <==> id in old(db.tables.subjects)
      ensures r.Success? ==>
                db.tables == old(db.tables).CascadeDelete(id)
                && db.nextSubjectId == old(db.nextSubjectId) && db.nextCompetencyId == old(db.nextCompetencyId)
    {
      var subject := FindSubjectByIdOrThrow(id, SubjectLookup(db.tables, true));
      if subject.Failure? {
        return HandleServiceError(subject.error, "delete subject");
      }
      var removed := RemoveSubjectSafely(db, Defined(subject.value));
      assert removed.Success?;
      r := removed;
    }
  }
}
