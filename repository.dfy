/**
 * The in-memory stand-in for the two TypeORM repositories: a subject table
 * and a competency table, each a map from a generated positive id to a row,
 * with the ids in creation order. The store enforces the entity
 * constraints on every write, as the database does, so they hold between
 * any two calls.
 */
module Repository {
  import opened JsValues
  import opened Exceptions
  import opened Entities

  /** Errors the database raises when a write would break a constraint. */
  const NOT_NULL_VIOLATION: string := "null value violates not-null constraint"
  const CHECK_VIOLATION: string := "new row violates check constraint"
  const UNIQUE_VIOLATION: string := "duplicate key value violates unique constraint"
  const FOREIGN_KEY_VIOLATION: string := "insert or update violates foreign key constraint"

  /** Strictly ascending: the ids of rows in creation order. */
  predicate Increasing(s: seq<int>) {
    forall i, j | 0 <= i < j < |s| :: s[i] < s[j]
  }

  /** In an ascending list the head is below everything after it, and the
      tail is ascending too. */
  lemma HeadBelowTail(order: seq<int>)
    requires Increasing(order) && order != []
    ensures Increasing(order[1..])
    ensures forall x | x in order[1..] :: order[0] < x
  {
    forall x | x in order[1..] ensures order[0] < x {
      var k :| 0 <= k < |order[1..]| && order[1..][k] == x;
      assert order[k + 1] == x;
    }
  }

  /** Putting an element below all of an ascending list in front of it
      gives an ascending list. */
  lemma ConsIncreasing(head: int, rest: seq<int>)
    requires Increasing(rest) && forall x | x in rest :: head < x
    ensures Increasing([head] + rest)
  {
    var r := [head] + rest;
    forall i, j | 0 <= i < j < |r| ensures r[i] < r[j] {
      assert r[j] == rest[j - 1] && rest[j - 1] in rest;
      if i > 0 {
        assert r[i] == rest[i - 1];
      }
    }
  }

  /** The elements of `order` that satisfy `keep`, in their original order. */
  function Filter(order: seq<int>, keep: int -> bool): (r: seq<int>)
    ensures forall x :: x in r <==> x in order && keep(x)
    ensures |r| <= |order|
    ensures Increasing(order) ==> Increasing(r)
  {
    if order == [] then []
    else
      var rest := Filter(order[1..], keep);
      assert forall x :: x in order[1..] ==> x in order;
      if keep(order[0]) then
        if Increasing(order) then
          HeadBelowTail(order);
          ConsIncreasing(order[0], rest);
          [order[0]] + rest
        else [order[0]] + rest
      else
        if Increasing(order) then HeadBelowTail(order); rest else rest
  }

  /** Nothing survives a filter no element passes. */
  lemma {:induction false} FilterNone(order: seq<int>, keep: int -> bool)
    requires forall x | x in order :: !keep(x)
    ensures Filter(order, keep) == []
  {
    if order != [] {
      var first := order[0];
      assert first in order;
      assert !keep(first);
      assert forall x | x in order[1..] :: x in order;
      FilterNone(order[1..], keep);
    }
  }

  /** `order` without `id`. */
  function Remove(order: seq<int>, id: int): (r: seq<int>)
    ensures forall x :: x in r <==> x in order && x != id
    ensures Increasing(order) ==> Increasing(r)
  {
    Filter(order, x => x != id)
  }

  /** The first element of `order` that satisfies `p`, if any. */
  function FirstWhere(order: seq<int>, p: int -> bool): (r: Option<int>)
    ensures r.Some? ==> r.value in order && p(r.value)
    ensures r.None? ==> forall x | x in order :: !p(x)
  {
    if order == [] then None
    else if p(order[0]) then Some(order[0])
    else FirstWhere(order[1..], p)
  }

  /** The contents of both tables. */
  datatype Tables = Tables(
    subjects: map<int, SubjectRow>,
    subjectOrder: seq<int>,
    competencies: map<int, CompetencyRow>,
    competencyOrder: seq<int>)
  {
    /** The orders list exactly the stored ids, in creation order, and the
        rows satisfy the entity constraints. */
    ghost predicate Valid() {
      Increasing(subjectOrder) && (forall id :: id in subjectOrder <==> id in subjects)
      && Increasing(competencyOrder) && (forall id :: id in competencyOrder <==> id in competencies)
      && Constraints(subjects, competencies)
    }

    /** The test a competency id passes when its row references subject
        `subjectId`. */
    function ReferencesSubject(subjectId: int): int -> bool {
      var cs := competencies;
      c => c in cs && cs[c].subjectId == subjectId
    }

    /** The ids of the competencies of subject `subjectId`, in creation order. */
    function CompetencyIdsOf(subjectId: int): (ids: seq<int>)
      ensures forall c :: c in ids <==> c in competencyOrder && c in competencies && competencies[c].subjectId == subjectId
    {
      Filter(competencyOrder, ReferencesSubject(subjectId))
    }

    /** A subject no competency references has no competency ids. */
    lemma NoCompetencyIdsOf(subjectId: int)
      requires forall c | c in competencies :: competencies[c].subjectId != subjectId
      ensures CompetencyIdsOf(subjectId) == []
    {
      FilterNone(competencyOrder, ReferencesSubject(subjectId));
    }

    /** Subject `id` as loaded without relations. */
    function SubjectEntity(id: int): (s: Subject)
      requires id in subjects
      ensures s.id == id && s.name == subjects[id].name && s.description == subjects[id].description
      ensures s.competencies == Undefined
    {
      Subject(id, subjects[id].name, subjects[id].description, Undefined)
    }

    /** Competency `id` as loaded; with `withSubject`, its subject relation is
        resolved, and is `Null` when the referenced subject is missing. */
    function CompetencyEntity(id: int, withSubject: bool): (c: Competency)
      requires id in competencies
      ensures c.id == id && c.name == competencies[id].name && c.marks == competencies[id].marks
      ensures c.subjectId == competencies[id].subjectId
      ensures !withSubject ==> c.subject == Undefined
      ensures withSubject && c.subjectId in subjects ==> c.subject == Defined(SubjectEntity(c.subjectId))
      ensures withSubject && c.subjectId !in subjects ==> c.subject == Null
    {
      var row := competencies[id];
      var subject := if !withSubject then Undefined
                     else if row.subjectId in subjects then Defined(SubjectEntity(row.subjectId))
                     else Null;
      Competency(id, row.name, row.marks, row.subjectId, subject)
    }

    /** The competencies of subject `subjectId`, in creation order. */
    function CompetenciesOf(subjectId: int, withSubject: bool): (cs: seq<Competency>)
      ensures |cs| == |CompetencyIdsOf(subjectId)|
      ensures forall i | 0 <= i < |cs| :: cs[i] == CompetencyEntity(CompetencyIdsOf(subjectId)[i], withSubject)
      ensures forall i | 0 <= i < |cs| :: cs[i].subjectId == subjectId
    {
      var ids := CompetencyIdsOf(subjectId);
      seq(|ids|, i requires 0 <= i < |ids| => CompetencyEntity(ids[i], withSubject))
    }

    /** Subject `id` as loaded with its competencies. */
    function SubjectWithCompetencies(id: int): (s: Subject)
      requires id in subjects
      ensures s == SubjectEntity(id).(competencies := Defined(CompetenciesOf(id, false)))
    {
      SubjectEntity(id).(competencies := Defined(CompetenciesOf(id, false)))
    }

    /** `findOne({ where: { id } })`, with or without the competencies. */
    function FindSubject(id: int, withCompetencies: bool): (r: Option<Subject>)
      ensures r.Some? <==> id in subjects
      ensures r.Some? && withCompetencies ==> r.value == SubjectWithCompetencies(id)
      ensures r.Some? && !withCompetencies ==> r.value == SubjectEntity(id)
    {
      if id !in subjects then None
      else if withCompetencies then Some(SubjectWithCompetencies(id))
      else Some(SubjectEntity(id))
    }

    /** `findOne({ where: { id }, relations: ['subject'] })` on competencies. */
    function FindCompetency(id: int): (r: Option<Competency>)
      ensures r.Some? <==> id in competencies
      ensures r.Some? ==> r.value == CompetencyEntity(id, true)
    {
      if id in competencies then Some(CompetencyEntity(id, true)) else None
    }

    /** `findOne({ where: { name } })` on subjects. */
    function FindSubjectByName(name: string): (r: Option<Subject>)
      ensures r.Some? ==> r.value.id in subjects && r.value == SubjectEntity(r.value.id) && r.value.name == name
      ensures r.None? ==> forall id | id in subjectOrder && id in subjects :: subjects[id].name != name
    {
      var ss := subjects;
      var found := FirstWhere(subjectOrder, id => id in ss && ss[id].name == name);
      if found.Some? then Some(SubjectEntity(found.value)) else None
    }

    /** `findOne({ where: { name, subject: { id } }, relations: ['subject'] })`
        on competencies. */
    function FindCompetencyByName(name: string, subjectId: int): (r: Option<Competency>)
      ensures r.Some? ==> r.value.id in competencies && r.value == CompetencyEntity(r.value.id, true)
                          && r.value.name == name && r.value.subjectId == subjectId
      ensures r.None? ==> forall id | id in competencyOrder && id in competencies ::
                            !(competencies[id].name == name && competencies[id].subjectId == subjectId)
    {
      var cs := competencies;
      var found := FirstWhere(competencyOrder, id => id in cs && cs[id].name == name && cs[id].subjectId == subjectId);
      if found.Some? then Some(CompetencyEntity(found.value, true)) else None
    }

    /** `find({ relations: { competencies: true }, order: { created_at: 'ASC',
        competencies: { created_at: 'ASC' } } })` on subjects. */
    function AllSubjects(): (r: seq<Subject>)
      requires Valid()
      ensures |r| == |subjectOrder|
      ensures forall i | 0 <= i < |r| :: r[i] == SubjectWithCompetencies(subjectOrder[i])
    {
      seq(|subjectOrder|, i requires 0 <= i < |subjectOrder| && Valid() => SubjectWithCompetencies(subjectOrder[i]))
    }

    /** `find({ where: { subject: { id } }, relations: ['subject'] })` on
        competencies. */
    function CompetenciesBySubject(subjectId: int): (r: seq<Competency>)
      ensures r == CompetenciesOf(subjectId, true)
    {
      CompetenciesOf(subjectId, true)
    }

    /** The tables once subject `id` is deleted: its row goes, and the
        foreign key's cascade takes the rows of its competencies with it. */
    function CascadeDelete(id: int): Tables {
      var kept := c => c in competencies && competencies[c].subjectId != id;
      Tables(subjects - {id}, Remove(subjectOrder, id),
             map c | c in competencies && competencies[c].subjectId != id :: competencies[c],
             Filter(competencyOrder, kept))
    }

    /** Some stored subject is called `name`. */
    ghost predicate SubjectNameTaken(name: string) {
      exists id | id in subjects :: subjects[id].name == name
    }

    /** Some stored competency of subject `subjectId` is called `name`. */
    ghost predicate CompetencyNameTaken(name: string, subjectId: int) {
      exists id | id in competencies :: competencies[id].name == name && competencies[id].subjectId == subjectId
    }
  }

  /** The repository calls the utilities receive, over a snapshot of the
      tables. Reads of the in-memory tables always return. */
  function SubjectLookup(t: Tables, withCompetencies: bool): int -> Call<Option<Subject>> {
    id => Returned(t.FindSubject(id, withCompetencies))
  }

  function SubjectNameLookup(t: Tables): string -> Call<Option<Subject>> {
    name => Returned(t.FindSubjectByName(name))
  }

  function CompetencyLookup(t: Tables): int -> Call<Option<Competency>> {
    id => Returned(t.FindCompetency(id))
  }

  function CompetencyNameLookup(t: Tables): (string, int) -> Call<Option<Competency>> {
    (name, subjectId) => Returned(t.FindCompetencyByName(name, subjectId))
  }

  /** In a consistent store the by-name lookups find a row exactly when the
      name is taken, and the row they find is the only one with that name. */
  lemma FindByNameIffTaken(t: Tables, name: string, subjectId: int)
    requires t.Valid()
    ensures t.FindSubjectByName(name).Some? <==> t.SubjectNameTaken(name)
    ensures t.FindSubjectByName(name).Some? ==>
              forall id | id in t.subjects && t.subjects[id].name == name :: id == t.FindSubjectByName(name).value.id
    ensures t.FindCompetencyByName(name, subjectId).Some? <==> t.CompetencyNameTaken(name, subjectId)
    ensures t.FindCompetencyByName(name, subjectId).Some? ==>
              forall id | id in t.competencies && t.competencies[id].name == name && t.competencies[id].subjectId == subjectId ::
                id == t.FindCompetencyByName(name, subjectId).value.id
  {
    if t.SubjectNameTaken(name) {
      var id :| id in t.subjects && t.subjects[id].name == name;
      assert id in t.subjectOrder;
    }
    if t.CompetencyNameTaken(name, subjectId) {
      var id :| id in t.competencies && t.competencies[id].name == name && t.competencies[id].subjectId == subjectId;
      assert id in t.competencyOrder;
    }
  }

  /** The competencies loaded with a subject all point back to it, and they
      are all of that subject's stored competencies. */
  lemma LoadedCompetenciesPointBack(t: Tables, id: int)
    requires t.Valid() && id in t.subjects
    ensures t.SubjectWithCompetencies(id).competencies.Defined?
    ensures forall c | c in t.SubjectWithCompetencies(id).competencies.value :: c.subjectId == id && c.id in t.competencies
    ensures forall c | c in t.competencies && t.competencies[c].subjectId == id ::
              exists k | 0 <= k < |t.CompetenciesOf(id, false)| :: t.CompetenciesOf(id, false)[k].id == c
  {
    var cs := t.CompetenciesOf(id, false);
    var ids := t.CompetencyIdsOf(id);
    forall c | c in t.competencies && t.competencies[c].subjectId == id
      ensures exists k | 0 <= k < |cs| :: cs[k].id == c
    {
      assert c in t.competencyOrder;
      assert c in ids;
      var k :| 0 <= k < |ids| && ids[k] == c;
      assert cs[k].id == c;
    }
  }

  /** Appending an id larger than every stored one keeps an order increasing
      and in step with its keys. */
  lemma AppendKeepsOrder<R>(order: seq<int>, rows: map<int, R>, id: int, row: R)
    requires Increasing(order) && (forall x :: x in order <==> x in rows)
    requires forall x | x in rows :: x < id
    ensures Increasing(order + [id]) && (forall x :: x in order + [id] <==> x in rows[id := row])
  {
    var o := order + [id];
    forall i, j | 0 <= i < j < |o| ensures o[i] < o[j] {
      if j == |order| {
        assert o[i] == order[i] && order[i] in order;
      } else {
        assert o[i] == order[i] && o[j] == order[j];
      }
    }
  }

  /** Storing a new subject under a fresh id with a free name keeps the
      tables consistent. */
  lemma AddSubjectKeepsValid(t: Tables, id: int, row: SubjectRow)
    requires t.Valid() && (forall x | x in t.subjects :: x < id) && !t.SubjectNameTaken(row.name)
    ensures t.(subjects := t.subjects[id := row], subjectOrder := t.subjectOrder + [id]).Valid()
  {
    AppendKeepsOrder(t.subjectOrder, t.subjects, id, row);
    var u := t.(subjects := t.subjects[id := row], subjectOrder := t.subjectOrder + [id]);
    assert UniqueSubjectNames(u.subjects);
    assert ReferencesExist(u.subjects, u.competencies);
  }

  /** Renaming a subject to a name no other subject has keeps the tables
      consistent. */
  lemma ReplaceSubjectKeepsValid(t: Tables, id: int, row: SubjectRow)
    requires t.Valid() && id in t.subjects
    requires forall other | other in t.subjects && other != id :: t.subjects[other].name != row.name
    ensures t.(subjects := t.subjects[id := row]).Valid()
  {
    var u := t.(subjects := t.subjects[id := row]);
    assert UniqueSubjectNames(u.subjects);
    assert ReferencesExist(u.subjects, u.competencies);
  }

  /** Storing a new competency under a fresh id keeps the tables consistent
      when its marks are in range, its name is free in its subject and the
      subject exists. */
  lemma AddCompetencyKeepsValid(t: Tables, id: int, row: CompetencyRow)
    requires t.Valid() && (forall x | x in t.competencies :: x < id)
    requires MarksInRange(row.marks) && !t.CompetencyNameTaken(row.name, row.subjectId) && row.subjectId in t.subjects
    ensures t.(competencies := t.competencies[id := row], competencyOrder := t.competencyOrder + [id]).Valid()
  {
    AppendKeepsOrder(t.competencyOrder, t.competencies, id, row);
    var u := t.(competencies := t.competencies[id := row], competencyOrder := t.competencyOrder + [id]);
    assert UniqueCompetencyNames(u.competencies);
    assert AllMarksInRange(u.competencies);
    assert ReferencesExist(u.subjects, u.competencies);
  }

  /** Replacing a competency's row, keeping its subject, keeps the tables
      consistent when its marks are in range and no other competency of the
      subject has its name. */
  lemma ReplaceCompetencyKeepsValid(t: Tables, id: int, row: CompetencyRow)
    requires t.Valid() && id in t.competencies && row.subjectId == t.competencies[id].subjectId
    requires MarksInRange(row.marks)
    requires forall other | other in t.competencies && other != id ::
               !(t.competencies[other].name == row.name && t.competencies[other].subjectId == row.subjectId)
    ensures t.(competencies := t.competencies[id := row]).Valid()
  {
    var u := t.(competencies := t.competencies[id := row]);
    assert UniqueCompetencyNames(u.competencies);
    assert AllMarksInRange(u.competencies);
    assert ReferencesExist(u.subjects, u.competencies);
  }

  /** Deleting one competency's row keeps the tables consistent. */
  lemma RemoveCompetencyKeepsValid(t: Tables, id: int)
    requires t.Valid()
    ensures t.(competencies := t.competencies - {id}, competencyOrder := Remove(t.competencyOrder, id)).Valid()
  {
    var u := t.(competencies := t.competencies - {id}, competencyOrder := Remove(t.competencyOrder, id));
    assert forall x | x in u.competencies :: x in t.competencies && u.competencies[x] == t.competencies[x];
    assert UniqueCompetencyNames(u.competencies);
    assert ReferencesExist(u.subjects, u.competencies);
  }

  /** Deleting a subject's row together with its competencies' rows keeps
      the entity constraints: no competency is left pointing at the deleted
      subject. */
  lemma CascadeDeleteKeepsConstraints(subjects: map<int, SubjectRow>, competencies: map<int, CompetencyRow>, id: int)
    requires Constraints(subjects, competencies)
    ensures Constraints(subjects - {id}, map c | c in competencies && competencies[c].subjectId != id :: competencies[c])
  {
    var kept := map c | c in competencies && competencies[c].subjectId != id :: competencies[c];
    assert forall x | x in kept :: x in competencies && kept[x] == competencies[x] && competencies[x].subjectId != id;
    assert UniqueCompetencyNames(kept);
    assert ReferencesExist(subjects - {id}, kept);
  }

  /** Deleting a subject with the cascade keeps the tables consistent. */
  lemma CascadeDeleteKeepsValid(t: Tables, id: int)
    requires t.Valid()
    ensures t.CascadeDelete(id).Valid()
  {
    var u := t.CascadeDelete(id);
    var kept := c => c in t.competencies && t.competencies[c].subjectId != id;
    CascadeDeleteKeepsConstraints(t.subjects, t.competencies, id);
    assert u.competencyOrder == Filter(t.competencyOrder, kept);
    assert forall x :: x in u.competencyOrder <==> x in t.competencyOrder && kept(x);
  }

  /** The database: the two tables and the next id each table hands out. */
  class Database {
    var tables: Tables
    var nextSubjectId: int
    var nextCompetencyId: int

    /** The tables are consistent and every stored id was handed out. */
    ghost predicate Valid()
      reads this
    {
      tables.Valid() && nextSubjectId > 0 && nextCompetencyId > 0
      && (forall id | id in tables.subjects :: 0 < id < nextSubjectId)
      && (forall id | id in tables.competencies :: 0 < id < nextCompetencyId)
    }

    /** An empty database; generated ids start at 1. */
    constructor()
      ensures Valid()
      ensures tables == Tables(map[], [], map[], [])
      ensures nextSubjectId == 1 && nextCompetencyId == 1
    {
      tables := Tables(map[], [], map[], []);
      nextSubjectId := 1;
      nextCompetencyId := 1;
    }

    /** `save` of a new subject. The id is drawn from the sequence before
        the row is checked, so even a refused insert uses it up. A taken
        name is refused; otherwise the row is stored under that id, the
        last in creation order. */
    method InsertSubject(row: SubjectRow) returns (r: Result<int>)
      requires Valid()
      modifies this
      ensures Valid()
      ensures old(tables.SubjectNameTaken(row.name)) ==>
                r == Failure(QueryFailed(UNIQUE_VIOLATION)) && tables == old(tables)
                && nextSubjectId == old(nextSubjectId) + 1 && nextCompetencyId == old(nextCompetencyId)
      ensures !old(tables.SubjectNameTaken(row.name)) ==>
                r == Success(old(nextSubjectId))
                && old(nextSubjectId) !in old(tables.subjects)
                && tables == old(tables).(subjects := old(tables.subjects)[r.value := row],
                                          subjectOrder := old(tables.subjectOrder) + [r.value])
                && nextSubjectId == old(nextSubjectId) + 1 && nextCompetencyId == old(nextCompetencyId)
    {
      var id := nextSubjectId;
      nextSubjectId := nextSubjectId + 1;
      FindByNameIffTaken(tables, row.name, 0);
      if tables.FindSubjectByName(row.name).Some? {
        return Failure(QueryFailed(UNIQUE_VIOLATION));
      }
      AddSubjectKeepsValid(tables, id, row);
      tables := tables.(subjects := tables.subjects[id := row], subjectOrder := tables.subjectOrder + [id]);
      r := Success(id);
    }

    /** `save` of an existing subject: refused when another subject has the
        new name, otherwise the row is replaced in place. */
    method UpdateSubject(id: int, row: SubjectRow) returns (r: Result<int>)
      requires Valid() && id in tables.subjects
      modifies this
      ensures Valid()
      ensures var clash := exists other | other in old(tables.subjects) && other != id :: old(tables.subjects)[other].name == row.name;
              (clash ==> r == Failure(QueryFailed(UNIQUE_VIOLATION)) && unchanged(this))
              && (!clash ==> r == Success(id) && tables == old(tables).(subjects := old(tables.subjects)[id := row])
                             && nextSubjectId == old(nextSubjectId) && nextCompetencyId == old(nextCompetencyId))
    {
      FindByNameIffTaken(tables, row.name, 0);
      var existing := tables.FindSubjectByName(row.name);
      if existing.Some? && existing.value.id != id {
        return Failure(QueryFailed(UNIQUE_VIOLATION));
      }
      ReplaceSubjectKeepsValid(tables, id, row);
      tables := tables.(subjects := tables.subjects[id := row]);
      r := Success(id);
    }

    /** `remove` of a subject; the foreign key's `ON DELETE CASCADE` removes
        its competencies with it. Removing a missing id changes nothing. */
    method DeleteSubject(id: int)
      requires Valid()
      modifies this
      ensures Valid()
      ensures tables.subjects == old(tables.subjects) - {id}
      ensures tables.competencies == map c | c in old(tables.competencies) && old(tables.competencies)[c].subjectId != id :: old(tables.competencies)[c]
      ensures tables.subjectOrder == Remove(old(tables.subjectOrder), id)
      ensures tables == old(tables).CascadeDelete(id)
      ensures nextSubjectId == old(nextSubjectId) && nextCompetencyId == old(nextCompetencyId)
    {
      CascadeDeleteKeepsValid(tables, id);
      tables := tables.CascadeDelete(id);
    }

    /** `save` of a new competency. The id is drawn from the sequence first,
        so even a refused insert uses it up. The database then checks the
        row in order: not-null columns, the marks check, the unique (name,
        subject) index, then the foreign key. */
    method InsertCompetency(name: Option<string>, marks: Option<int>, subjectId: int) returns (r: Result<int>)
      requires Valid()
      modifies this
      ensures Valid()
      ensures r.Failure? ==>
                r.error.QueryFailed? && tables == old(tables)
                && nextCompetencyId == old(nextCompetencyId) + 1 && nextSubjectId == old(nextSubjectId)
      ensures r.Success? <==> name.Some? && marks.Some? && MarksInRange(marks.value)
                              && !old(tables.CompetencyNameTaken(name.value, subjectId)) && subjectId in old(tables.subjects)
      ensures name.None? || marks.None? ==> r == Failure(QueryFailed(NOT_NULL_VIOLATION))
      ensures name.Some? && marks.Some? && !MarksInRange(marks.value) ==> r == Failure(QueryFailed(CHECK_VIOLATION))
      ensures r.Success? ==>
                r.value == old(nextCompetencyId) && r.value !in old(tables.competencies)
                && tables == old(tables).(competencies := old(tables.competencies)[r.value := CompetencyRow(name.value, marks.value, subjectId)],
                                          competencyOrder := old(tables.competencyOrder) + [r.value])
                && nextCompetencyId == old(nextCompetencyId) + 1 && nextSubjectId == old(nextSubjectId)
    {
      var id := nextCompetencyId;
      nextCompetencyId := nextCompetencyId + 1;
      if name.None? || marks.None? {
        return Failure(QueryFailed(NOT_NULL_VIOLATION));
      }
      if !MarksInRange(marks.value) {
        return Failure(QueryFailed(CHECK_VIOLATION));
      }
      FindByNameIffTaken(tables, name.value, subjectId);
      if tables.FindCompetencyByName(name.value, subjectId).Some? {
        return Failure(QueryFailed(UNIQUE_VIOLATION));
      }
      if subjectId !in tables.subjects {
        return Failure(QueryFailed(FOREIGN_KEY_VIOLATION));
      }
      var row := CompetencyRow(name.value, marks.value, subjectId);
      AddCompetencyKeepsValid(tables, id, row);
      tables := tables.(competencies := tables.competencies[id := row], competencyOrder := tables.competencyOrder + [id]);
      r := Success(id);
    }

    /** `save` of an existing competency: the marks check, then the unique
        (name, subject) index against the other rows; the row is replaced in
        place. The subject does not change, so the foreign key still holds. */
    method UpdateCompetency(id: int, row: CompetencyRow) returns (r: Result<int>)
      requires Valid() && id in tables.competencies && row.subjectId == tables.competencies[id].subjectId
      modifies this
      ensures Valid()
      ensures var clash := exists other | other in old(tables.competencies) && other != id ::
                             old(tables.competencies)[other].name == row.name && old(tables.competencies)[other].subjectId == row.subjectId;
              (!MarksInRange(row.marks) ==> r == Failure(QueryFailed(CHECK_VIOLATION)) && unchanged(this))
              && (MarksInRange(row.marks) && clash ==> r == Failure(QueryFailed(UNIQUE_VIOLATION)) && unchanged(this))
              && (MarksInRange(row.marks) && !clash ==>
                    r == Success(id) && tables == old(tables).(competencies := old(tables.competencies)[id := row])
                    && nextSubjectId == old(nextSubjectId) && nextCompetencyId == old(nextCompetencyId))
    {
      if !MarksInRange(row.marks) {
        return Failure(QueryFailed(CHECK_VIOLATION));
      }
      FindByNameIffTaken(tables, row.name, row.subjectId);
      var existing := tables.FindCompetencyByName(row.name, row.subjectId);
      if existing.Some? && existing.value.id != id {
        return Failure(QueryFailed(UNIQUE_VIOLATION));
      }
      ReplaceCompetencyKeepsValid(tables, id, row);
      tables := tables.(competencies := tables.competencies[id := row]);
      r := Success(id);
    }

    /** `remove` of a competency. Removing a missing id changes nothing. */
    method DeleteCompetency(id: int)
      requires Valid()
      modifies this
      ensures Valid()
      ensures tables == old(tables).(competencies := old(tables.competencies) - {id},
                                     competencyOrder := Remove(old(tables.competencyOrder), id))
      ensures nextSubjectId == old(nextSubjectId) && nextCompetencyId == old(nextCompetencyId)
    {
      RemoveCompetencyKeepsValid(tables, id);
      tables := tables.(competencies := tables.competencies - {id},
                        competencyOrder := Remove(tables.competencyOrder, id));
    }
  }
}
