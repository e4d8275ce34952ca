# Grade management: a verified model of the subject and competency rules

The system keeps subjects, each with a list of competencies. A competency
carries marks out of ten. This project models the rules the system applies
on the way in and on the way out, and proves properties of them.

- **Backend validation primitives.** These are the null-safety guard's
  checks on optional values, trimmed names and positive ids.
- **Domain rules.** Subject names are unique. Competency names are unique
  within their subject. Marks lie in 0..10. A missing record is "not
  found". A partial update leaves absent fields alone.
- **Service pipelines.** These are the fail-fast create, read, update and
  delete sequences for subjects and competencies. They run against an
  in-memory database: a `Database` class whose two tables are maps from a
  generated positive id to a row. Its class invariant is the entity
  constraints: unique names, marks in range, and every competency pointing
  at an existing subject. Deleting a subject cascades to its competencies.
- **Request bodies and errors.** The request-body validators are
  predicates. The custom exceptions form a datatype. The global exception
  filter maps each exception to a status and a body.
- **Frontend logic.**
  - The `useSubjects` hook's list updaters and its fetch flags.
  - The `SubjectsContainer` search filter and totals.
  - The `handleSubmit` of the competency form and of the subject form.

JavaScript values are modelled explicitly:

- `Input<T>` keeps `undefined`, `null` and a present value apart.
- `Numeric` is an integer or `NaN`.
- A call that may throw (a repository query, an HTTP request) is a
  `Call<T>` that either returned a value or threw.

Repository queries reach the utility functions as function parameters.
The services build them from the current tables, so a lookup that throws
can still be represented. Entities are values. The utilities' in-place
field assignments are modelled as returning the updated copy.

Two facts about the code that the model keeps as written:

- The competency service (`validateCompetencyInput`) only requires a
  non-blank trimmed name of at most 100 characters. The 2-character
  minimum exists only in the request-body decorators.
  `CompetencyUtils.NameChecksDiffer` exhibits the gap.
- `createCompetency` validates the body before it looks up the subject.
  `CompetenciesService.CompetenciesService.CreateCompetency` states that
  order.

## Model

| member | source | states |
|---|---|---|
| JsValues.ToOption | apps/backend/src/modules/subjects/services/subject.utils.ts:158-165 | an absent or null optional column reads as none; a present value is kept |
| JsStrings.TrimStart | apps/backend/src/common/guards/null-safety.guard.ts:110 | the result is a suffix of the input; everything cut off is whitespace; the result does not start with whitespace |
| JsStrings.TrimEnd | apps/backend/src/common/guards/null-safety.guard.ts:110 | the result is a prefix of the input; everything cut off is whitespace; the result does not end with whitespace |
| JsStrings.TrimCuts | apps/backend/src/common/guards/null-safety.guard.ts:110 | `trim()` cuts the input at two points with only whitespace before the first and after the second |
| JsStrings.TrimIsCore | apps/backend/src/common/guards/null-safety.guard.ts:110 | `trim()` yields a trimmed infix of the input with only whitespace around it |
| JsStrings.TrimIdempotent | apps/backend/src/common/guards/null-safety.guard.ts:110-122 | trimming twice is trimming once |
| JsStrings.TrimEmptyIffAllWhitespace | apps/backend/src/common/guards/null-safety.guard.ts:65 | the trim is empty exactly when the string is all whitespace |
| JsStrings.TrimmedNonEmpty | apps/backend/src/common/guards/null-safety.guard.ts:112-114 | a non-empty trimmed string is not all whitespace |
| JsStrings.TrimOfTrimmed | apps/backend/src/common/guards/null-safety.guard.ts:110 | trimming a string that is already trimmed returns it unchanged |
| JsStrings.LowerChar | apps/frontend/src/components/subjects/SubjectsContainer.tsx:35 | `toLowerCase` maps A-Z to a-z and leaves every other character alone |
| JsStrings.Lower | apps/frontend/src/components/subjects/SubjectsContainer.tsx:35-37 | lower-casing keeps the length and lower-cases character by character |
| JsStrings.Includes | apps/frontend/src/components/subjects/SubjectsContainer.tsx:35-37 | `includes` holds exactly when the term occurs at some position |
| JsStrings.IncludesEmpty | apps/frontend/src/components/subjects/SubjectsContainer.tsx:35 | every string includes the empty string |
| JsStrings.IncludesInfix | apps/backend/src/common/exceptions/custom.exceptions.ts:5 | a string includes each of its infixes |
| JsStrings.DigitChar | apps/frontend/src/components/competencies/CompetencyForm.tsx:16 | a digit value maps to the digit character of that value |
| JsStrings.DigitValue | apps/frontend/src/components/competencies/CompetencyForm.tsx:21 | a digit character maps back to its value; the two are inverse |
| JsStrings.NatToString | apps/frontend/src/components/competencies/CompetencyForm.tsx:16 | `toString` of a natural number is a non-empty digit string without a leading zero unless the number is 0 |
| JsStrings.IntToString | apps/frontend/src/components/competencies/CompetencyForm.tsx:16 | `toString` of a negative number is a minus sign followed by the digits of its absolute value |
| JsStrings.DigitsOfNatToString | apps/frontend/src/components/competencies/CompetencyForm.tsx:16 | reading back the digits of `toString(n)` gives n |
| JsStrings.DigitPrefix | apps/frontend/src/components/competencies/CompetencyForm.tsx:21 | the longest leading run of digits: a prefix, all digits, followed by a non-digit or nothing |
| JsStrings.DigitPrefixOfDigits | apps/frontend/src/components/competencies/CompetencyForm.tsx:21 | the leading digit run of a digit string is the whole string |
| JsStrings.ParseIntOfDigits | apps/frontend/src/components/competencies/CompetencyForm.tsx:21 | `parseInt` of a digit string is its decimal value |
| JsStrings.ParseIntOfNegatedDigits | apps/frontend/src/components/competencies/CompetencyForm.tsx:21 | `parseInt` of a minus sign and digits is the negated value |
| JsStrings.ParseIntOfIntToString | apps/frontend/src/components/competencies/CompetencyForm.tsx:16-21 | `parseInt(n.toString())` is n for every integer n, so marks loaded into the form read back unchanged |
| NullSafetyGuard.RequireNonNull | apps/backend/src/common/guards/null-safety.guard.ts:15-20 | fails with bad-request "`<field>` cannot be null or undefined" exactly when the value is null or undefined; otherwise returns the value unchanged |
| NullSafetyGuard.SafeAccess | apps/backend/src/common/guards/null-safety.guard.ts:28-42 | the accessor's value when the object is present, the accessor returns and its result is present; the default in every other case, including a throwing accessor |
| NullSafetyGuard.SafeArrayLength | apps/backend/src/common/guards/null-safety.guard.ts:48-50 | the array's length when present, 0 otherwise |
| NullSafetyGuard.SafeStringLength | apps/backend/src/common/guards/null-safety.guard.ts:56-58 | the string's length when present, 0 otherwise |
| NullSafetyGuard.IsNullOrEmpty | apps/backend/src/common/guards/null-safety.guard.ts:64-66 | true exactly when the string is absent or all whitespace |
| NullSafetyGuard.SafeString | apps/backend/src/common/guards/null-safety.guard.ts:73-78 | a present string is returned even when empty; the default only for null or undefined |
| NullSafetyGuard.SafeNumber | apps/backend/src/common/guards/null-safety.guard.ts:85-91 | the number for a present numeric value; the default for null, undefined or NaN; never fails |
| NullSafetyGuard.ValidateAndCleanString | apps/backend/src/common/guards/null-safety.guard.ts:99-123 | succeeds exactly when the input is present, not all whitespace and trims to at most maxLength; then returns the trimmed input, trimmed and of length 1..maxLength; otherwise fails with bad-request |
| NullSafetyGuard.ValidateAndCleanStringAccepts | apps/backend/src/common/guards/null-safety.guard.ts:99-123 | a trimmed string of length 1..maxLength is accepted and returned unchanged |
| NullSafetyGuard.ValidateAndCleanStringIdempotent | apps/backend/src/common/guards/null-safety.guard.ts:110-122 | validating the cleaned output again returns the same string |
| NullSafetyGuard.Display | apps/backend/src/common/guards/null-safety.guard.ts:151 | a numeric id is rendered in the message as its decimal digits |
| NullSafetyGuard.ValidateId | apps/backend/src/common/guards/null-safety.guard.ts:148-155 | succeeds exactly for a present number greater than 0 and returns it unchanged; fails with bad-request "Valid `<entity>` ID is required…" for null, undefined, NaN or a value of at most 0 |
| NullSafetyGuard.SafeExecute | apps/backend/src/common/guards/null-safety.guard.ts:131-141 | the function's value when it returns a present value; the fallback when it throws or returns null or undefined |
| Exceptions.ToThrown | apps/backend/src/common/exceptions/custom.exceptions.ts:1-28 | the not-found exceptions carry 404 and the already-exists exceptions 409, each with its message string as the response; bad-request carries 400 with its message in a response object; internal errors, query errors and type errors are not HTTP exceptions |
| Exceptions.NotFoundMessageNamesId | apps/backend/src/common/exceptions/custom.exceptions.ts:3-19 | the not-found message contains the id it was raised for |
| Exceptions.AlreadyExistsMessageNamesDuplicate | apps/backend/src/common/exceptions/custom.exceptions.ts:9-28 | the already-exists message names the duplicate, and for a competency also the subject |
| Exceptions.PropertyReadError | apps/backend/src/modules/subjects/services/subjects.service.ts:26 | reading a property of null or undefined raises a `TypeError` naming the property, which is not an HTTP exception |
| Exceptions.HandleServiceError | apps/backend/src/modules/subjects/services/subject.utils.ts:241-253 | every failure is rethrown unchanged |
| GlobalExceptionFilter.ErrorStatus | apps/backend/src/common/filters/global-exception.filter.ts:32-42 | an HTTP exception keeps its own status; any other error gets 500 |
| GlobalExceptionFilter.ErrorMessage | apps/backend/src/common/filters/global-exception.filter.ts:34-42 | a string response is the message; otherwise the response's non-empty `message`, falling back to the exception's own message; "Internal server error" for any non-HTTP error |
| GlobalExceptionFilter.Catch | apps/backend/src/common/filters/global-exception.filter.ts:24-64 | responds with the chosen status and a body with `success` false, that status code, the chosen message and the request path |
| GlobalExceptionFilter.ResponseForCoreException | apps/backend/src/common/filters/global-exception.filter.ts:24-64 | end to end: bad-request reaches the client as 400 with its message, not-found as 404, already-exists as 409, and internal errors, query errors and type errors as 500 "Internal server error" |
| GlobalExceptionFilter.CreateSuccessResponse | apps/backend/src/common/filters/global-exception.filter.ts:67-76 | `success` true, the given data, and the message given or "Operation successful" by default |
| Dtos.ValidCreateCompetencyDto | apps/backend/src/modules/competencies/dtos/create-competency.dto.ts:4-14 | a create-competency body is valid exactly when it has a name of 2..100 characters, counted before trimming, and integer marks in 0..10 |
| Dtos.ValidUpdateCompetencyDto | apps/backend/src/modules/competencies/dtos/update-competency.dto.ts:12-24 | an update-competency body is valid exactly when a given name has 2..100 characters and given marks are an integer in 0..10; null or absent fields are skipped |
| Dtos.ValidUpdateSubjectDto | apps/backend/src/modules/subjects/dtos/update-subject.dto.ts:4-14 | a subject body is valid exactly when a given name has 2..100 characters; the description is any string or absent |
| Entities.MarksInRange | apps/backend/src/modules/competencies/entities/competency.entity.ts:7 | the `marks` check constraint: 0 <= marks <= 10 |
| Entities.AllMarksInRange | apps/backend/src/modules/competencies/entities/competency.entity.ts:7 | every stored competency meets the marks check constraint |
| Entities.UniqueSubjectNames | apps/backend/src/modules/subjects/entities/subject.entity.ts:7 | the unique index on the subject name: two stored subjects with the same name are the same row |
| Entities.UniqueCompetencyNames | apps/backend/src/modules/competencies/entities/competency.entity.ts:6 | the unique index on (name, subject): two stored competencies with the same name in the same subject are the same row |
| Entities.ReferencesExist | apps/backend/src/modules/competencies/entities/competency.entity.ts:15-19 | the non-null foreign key: every stored competency references a stored subject |
| Entities.Constraints | apps/backend/src/modules/competencies/entities/competency.entity.ts:6-19 | all four store constraints of the two tables together |
| Exceptions.Exception.Message | apps/backend/src/common/exceptions/custom.exceptions.ts:3-28 | each custom exception's message text, with the id in decimal and the names quoted as the constructors write them |
| Dtos.CreateCompetencyDtoIsUpdateDto | apps/backend/src/modules/competencies/dtos/create-competency.dto.ts:4-14 | every valid create-competency body is also a valid update body |
| Dtos.EmptyUpdateBodiesAreValid | apps/backend/src/modules/competencies/dtos/update-competency.dto.ts:12-24 | an empty body is a valid update for both entities but not a valid competency create |
| Repository.Filter | apps/backend/src/modules/subjects/entities/subject.entity.ts:13-16 | model helper for the rows a relation load or the delete cascade keeps: exactly the ids of the order that pass the test, never more of them, in ascending creation order |
| Repository.FilterNone | apps/backend/src/modules/subjects/entities/subject.entity.ts:13-16 | model helper: when no row passes the test, the relation loads no rows |
| Repository.Remove | apps/backend/src/modules/competencies/services/competency.utils.ts:309 | model helper for `repository.remove`: removing a row's id from the creation order keeps exactly the other ids, in order |
| Repository.FirstWhere | apps/backend/src/modules/subjects/services/subject.utils.ts:87-91 | a found id is in the table and matches; none means no stored id matches |
| Repository.Tables.CompetencyIdsOf | apps/backend/src/modules/subjects/entities/subject.entity.ts:13-16 | a subject's competencies are exactly the stored ones that reference it; the model lists them in creation order |
| Repository.Tables.NoCompetencyIdsOf | apps/backend/src/modules/subjects/entities/subject.entity.ts:13-16 | a subject no competency row references has no competencies |
| Repository.Tables.CascadeDelete | apps/backend/src/modules/competencies/entities/competency.entity.ts:17 | the tables after a subject delete: the subject row and its order entry go, and `onDelete: 'CASCADE'` removes exactly the competency rows referencing it; every other row stays as it was |
| Repository.Tables.SubjectEntity | apps/backend/src/modules/subjects/entities/subject.entity.ts:6-16 | a loaded subject carries its row's columns; its relation is not loaded |
| Repository.Tables.CompetencyEntity | apps/backend/src/modules/competencies/entities/competency.entity.ts:15-24 | a loaded competency carries its row's columns; with the relation requested its subject is the referenced subject, and null if that row is gone |
| Repository.Tables.CompetenciesOf | apps/backend/src/modules/subjects/entities/subject.entity.ts:13-16 | the loaded relation lists exactly the subject's competency rows, each referencing the subject; the model's order is creation order |
| Repository.Tables.SubjectWithCompetencies | apps/backend/src/modules/subjects/services/subjects.service.ts:116-120 | a subject loaded with its competencies, listed by the model in creation order |
| Repository.Tables.FindSubject | apps/backend/src/modules/subjects/services/subject.utils.ts:47-50 | `findOne` by id finds a subject exactly when the id is stored, with or without its relation as requested |
| Repository.Tables.FindCompetency | apps/backend/src/modules/competencies/services/competency.utils.ts:95-98 | `findOne` by id finds a competency exactly when the id is stored, with its subject loaded |
| Repository.Tables.FindSubjectByName | apps/backend/src/modules/subjects/services/subject.utils.ts:87-91 | a found subject has that name; none means no stored subject has it |
| Repository.Tables.FindCompetencyByName | apps/backend/src/modules/competencies/services/competency.utils.ts:144-152 | a found competency has that name in that subject; none means no stored one does |
| Repository.Tables.AllSubjects | apps/backend/src/modules/subjects/services/subjects.service.ts:79-88 | every subject in ascending creation order, each with its competencies in creation order |
| Repository.Tables.CompetenciesBySubject | apps/backend/src/modules/competencies/services/competencies.service.ts:106-113 | exactly the subject's competencies, each with its subject loaded; the model lists them in creation order |
| Repository.FindByNameIffTaken | apps/backend/src/modules/subjects/entities/subject.entity.ts:7 | on a consistent store, a by-name lookup finds a row exactly when the name is taken, and the row found is the only one with that name; the same holds for a competency name within its subject |
| Repository.LoadedCompetenciesPointBack | apps/backend/src/modules/subjects/entities/subject.entity.ts:13-16 | a loaded subject's competency list is present; each entry references that subject and exists; every stored competency of that subject appears in it |
| Repository.AppendKeepsOrder | apps/backend/src/modules/competencies/entities/competency.entity.ts:1-24 | appending a fresh larger id keeps the creation order ascending and in step with the table |
| Repository.AddSubjectKeepsValid | apps/backend/src/modules/subjects/entities/subject.entity.ts:7 | inserting a subject whose name is free keeps every constraint |
| Repository.ReplaceSubjectKeepsValid | apps/backend/src/modules/subjects/entities/subject.entity.ts:7 | rewriting a subject with a name no other subject has keeps every constraint |
| Repository.AddCompetencyKeepsValid | apps/backend/src/modules/competencies/entities/competency.entity.ts:6-24 | inserting a competency with marks in 0..10, a free name in its subject and an existing subject keeps every constraint |
| Repository.RemoveCompetencyKeepsValid | apps/backend/src/modules/competencies/services/competencies.service.ts:230-234 | removing one competency row keeps every constraint |
| Repository.CascadeDeleteKeepsConstraints | apps/backend/src/modules/competencies/entities/competency.entity.ts:17 | removing a subject together with the competencies referencing it leaves no competency pointing at a missing subject and keeps names unique |
| Repository.CascadeDeleteKeepsValid | apps/backend/src/modules/competencies/entities/competency.entity.ts:17 | the cascading delete keeps every constraint and both creation orders in step with the tables |
| Repository.ReplaceCompetencyKeepsValid | apps/backend/src/modules/competencies/entities/competency.entity.ts:6-13 | rewriting a competency in place with marks in range and a free name keeps every constraint |
| Repository.Database.constructor | apps/backend/src/modules/subjects/entities/subject.entity.ts:5-17 | an empty, consistent store whose generated ids start at 1 |
| Repository.Database.InsertSubject | apps/backend/src/modules/subjects/entities/subject.entity.ts:7 | the next id is drawn first; a taken name is then refused with a unique violation, writing no row but using up that id; otherwise the row is stored under that id and joins the end of the order |
| Repository.Database.UpdateSubject | apps/backend/src/modules/subjects/entities/subject.entity.ts:7 | a name held by another subject is refused and nothing changes; otherwise exactly that row is rewritten |
| Repository.Database.DeleteSubject | apps/backend/src/modules/competencies/entities/competency.entity.ts:17 | the subject goes, and every competency referencing it goes with it by cascade; the rest stays |
| Repository.Database.InsertCompetency | apps/backend/src/modules/competencies/entities/competency.entity.ts:6-24 | a missing name or marks is a not-null violation, marks outside 0..10 a check violation, a taken name a unique violation, a missing subject a foreign-key violation; each refusal writes no row but uses up the id drawn for it; otherwise the row gets the next id and joins the end of the order |
| Repository.Database.UpdateCompetency | apps/backend/src/modules/competencies/entities/competency.entity.ts:6-13 | marks out of range or a name taken in the subject by another competency are refused and change nothing; otherwise exactly that row is rewritten |
| Repository.Database.DeleteCompetency | apps/backend/src/modules/competencies/services/competencies.service.ts:230-234 | exactly that competency is removed |
| SubjectUtils.ValidateSubjectInput | apps/backend/src/modules/subjects/services/subject.utils.ts:20-33 | a missing body fails with "Subject DTO cannot be null or undefined"; otherwise succeeds exactly when the name is present, not blank and trims to at most 100 characters, returning the trimmed name and the description untouched |
| SubjectUtils.WithCompetencyList | apps/backend/src/modules/subjects/services/subject.utils.ts:57-60 | a subject without a competency list gets the empty list; one with a list is unchanged |
| SubjectUtils.FindSubjectByIdOrThrow | apps/backend/src/modules/subjects/services/subject.utils.ts:38-69 | an invalid id is bad-request; a failing query propagates; no row is not-found; otherwise the subject with a competency list that is never null |
| SubjectUtils.FindSubjectByName | apps/backend/src/modules/subjects/services/subject.utils.ts:74-104 | a blank name gives none without a lookup; otherwise looks up the trimmed name; a failing lookup gives none |
| SubjectUtils.EnsureUniqueSubjectName | apps/backend/src/modules/subjects/services/subject.utils.ts:109-127 | fails with already-exists exactly when a subject with the name is found and its id is not the excluded one |
| SubjectUtils.EnsureUniqueSubjectNameAgainstStore | apps/backend/src/modules/subjects/services/subject.utils.ts:109-127 | against the store, it fails exactly when some other stored subject has the name |
| SubjectUtils.KeptSubjects | apps/backend/src/modules/subjects/services/subject.utils.ts:141-152 | never longer than the input, and every survivor has a competency list |
| SubjectUtils.KeptSubjectsAppend | apps/backend/src/modules/subjects/services/subject.utils.ts:141-152 | filtering distributes over concatenation, so order is kept |
| SubjectUtils.KeptSubjectsMembership | apps/backend/src/modules/subjects/services/subject.utils.ts:141-152 | a subject survives exactly when it is a present entry, given a list if it had none |
| SubjectUtils.KeptSubjectsOfLoaded | apps/backend/src/modules/subjects/services/subject.utils.ts:132-153 | a list of loaded subjects passes through unchanged |
| SubjectUtils.ValidateSubjectsArray | apps/backend/src/modules/subjects/services/subject.utils.ts:132-153 | a missing array gives the empty list; otherwise drops null entries, keeps order, and gives every survivor a competency list |
| SubjectUtils.CreateSubjectEntity | apps/backend/src/modules/subjects/services/subject.utils.ts:158-165 | the new row carries the validated name, and the description when one was given |
| SubjectUtils.SaveNewSubjectSafely | apps/backend/src/modules/subjects/services/subject.utils.ts:170-189 | saving a new subject stores it under the next id, or fails with a unique violation that writes no row but uses up that id |
| SubjectUtils.SaveSubjectSafely | apps/backend/src/modules/subjects/services/subject.utils.ts:170-189 | saving an existing subject rewrites exactly its row, or fails with a unique violation and changes nothing |
| SubjectUtils.UpdateSubjectFields | apps/backend/src/modules/subjects/services/subject.utils.ts:194-214 | a truthy name is revalidated and stored trimmed, and its failure is the result; a truthy description replaces the old one; an empty or absent field changes nothing; id and competencies are kept |
| SubjectUtils.UpdateSubjectFieldsIdempotent | apps/backend/src/modules/subjects/services/subject.utils.ts:194-214 | applying the same update twice is applying it once |
| SubjectUtils.RemoveSubjectSafely | apps/backend/src/modules/subjects/services/subject.utils.ts:219-236 | a missing subject is bad-request and changes nothing; otherwise the tables become the cascading delete of that subject, removing it and its competencies, and the id counters stay |
| CompetencyUtils.SafeMarks | apps/backend/src/modules/competencies/services/competency.utils.ts:39 | marks read through `safeNumber` with default 0: a present number as is, otherwise 0 |
| CompetencyUtils.ValidateCompetencyInput | apps/backend/src/modules/competencies/services/competency.utils.ts:22-51 | a missing body fails with a not-null message; a present name must pass the string check with limit 100, and it is checked before the marks; present marks must lie in 0..10; an absent field stays absent in the result, and a present one is trimmed or range-checked |
| CompetencyUtils.MarksBoundaries | apps/backend/src/modules/competencies/services/competency.utils.ts:38-46 | marks 0 and 10 are accepted; -1 and 11 are refused with bad-request |
| CompetencyUtils.NullMarksReadAsZero | apps/backend/src/modules/competencies/services/competency.utils.ts:38-46 | null or non-numeric marks read as 0 and are accepted |
| CompetencyUtils.ValidCreateBodyPassesService | apps/backend/src/modules/competencies/services/competency.utils.ts:22-51 | a valid create body passes the service check exactly when its name is not blank, and yields the trimmed name and the marks |
| CompetencyUtils.NameChecksDiffer | apps/backend/src/modules/competencies/dtos/create-competency.dto.ts:4-9 | the one-letter name "a" passes the service but not the request body; a name of spaces passes the request body but not the service |
| CompetencyUtils.FindSubjectByIdOrThrow | apps/backend/src/modules/competencies/services/competency.utils.ts:56-81 | an invalid id is bad-request; a failing query propagates; no row is not-found; otherwise the subject as found |
| CompetencyUtils.FindCompetencyByIdOrThrow | apps/backend/src/modules/competencies/services/competency.utils.ts:86-118 | an invalid id is bad-request; no row is not-found; a row without its subject is a plain internal error; otherwise the competency as found |
| CompetencyUtils.FindCompetencyAgainstStore | apps/backend/src/modules/competencies/services/competency.utils.ts:86-118 | against a consistent store the lookup succeeds exactly for a stored id, with its subject loaded, so the internal error never arises |
| CompetencyUtils.FindCompetencyByNameInSubject | apps/backend/src/modules/competencies/services/competency.utils.ts:123-165 | a blank name, an invalid subject id or a failing lookup gives none; otherwise looks up the trimmed name in that subject |
| CompetencyUtils.EnsureUniqueCompetencyName | apps/backend/src/modules/competencies/services/competency.utils.ts:170-195 | fails with already-exists, naming the competency and the subject, exactly when a same-named competency is found in the subject whose id is not the excluded one |
| CompetencyUtils.EnsureUniqueCompetencyNameAgainstStore | apps/backend/src/modules/competencies/services/competency.utils.ts:170-195 | against the store, it fails exactly when some other competency of that subject has the name |
| CompetencyUtils.WithSubject | apps/backend/src/modules/competencies/services/competency.utils.ts:214-219 | a competency without its subject gets the parent; one with a subject is unchanged |
| CompetencyUtils.KeptCompetencies | apps/backend/src/modules/competencies/services/competency.utils.ts:205-227 | never longer than the input, and every survivor has a subject |
| CompetencyUtils.KeptCompetenciesAppend | apps/backend/src/modules/competencies/services/competency.utils.ts:205-227 | filtering distributes over concatenation, so order is kept |
| CompetencyUtils.KeptCompetenciesMembership | apps/backend/src/modules/competencies/services/competency.utils.ts:205-227 | a competency survives exactly when it is a present entry, given the parent if it had no subject |
| CompetencyUtils.KeptCompetenciesOfLoaded | apps/backend/src/modules/competencies/services/competency.utils.ts:200-228 | a list of loaded competencies passes through unchanged |
| CompetencyUtils.ValidateCompetenciesArray | apps/backend/src/modules/competencies/services/competency.utils.ts:200-228 | a missing array gives the empty list; otherwise drops null entries, keeps order, and gives every survivor a subject |
| CompetencyUtils.CreateCompetencyEntity | apps/backend/src/modules/competencies/services/competency.utils.ts:233-249 | the new record's subject id is the subject's id, and its name and marks are the validated ones |
| CompetencyUtils.SaveNewCompetencySafely | apps/backend/src/modules/competencies/services/competency.utils.ts:254-273 | a missing name or marks is refused by the store as a not-null violation; otherwise saving stores the row under the next id exactly when marks, name and subject satisfy the constraints; a refusal writes no row but uses up that id |
| CompetencyUtils.SaveCompetencySafely | apps/backend/src/modules/competencies/services/competency.utils.ts:254-273 | saving an existing competency rewrites exactly its row, or fails with a check or unique violation and changes nothing |
| CompetencyUtils.UpdateCompetencyFields | apps/backend/src/modules/competencies/services/competency.utils.ts:278-292 | a present name or marks, marks 0 included, replaces the old value; absent ones and all other fields are kept |
| CompetencyUtils.UpdateKeepsMarksInRange | apps/backend/src/modules/competencies/services/competency.utils.ts:278-292 | a validated update keeps the marks in 0..10 |
| CompetencyUtils.EmptyUpdateChangesNothing | apps/backend/src/modules/competencies/services/competency.utils.ts:278-292 | an empty update body validates to nothing and leaves the competency as it was |
| CompetencyUtils.RemoveCompetencySafely | apps/backend/src/modules/competencies/services/competency.utils.ts:297-312 | a missing competency is bad-request and changes nothing; otherwise exactly that competency and its order entry are removed, and everything else, the id counters included, stays |
| SubjectsService.NoCompetenciesYet | apps/backend/src/modules/subjects/services/subjects.service.ts:59-62 | a subject no competency references loads with the empty competency list |
| SubjectsService.AllSubjectsListsEveryStoredSubject | apps/backend/src/modules/subjects/services/subjects.service.ts:75-107 | the listing contains exactly the stored subjects |
| SubjectsService.SubjectsService.constructor | apps/backend/src/modules/subjects/services/subjects.service.ts:14-20 | the service works on the given store |
| SubjectsService.SubjectsService.GetSubjectById | apps/backend/src/modules/subjects/services/subjects.service.ts:112-131 | an invalid id is bad-request and an unknown one not-found; otherwise the subject with its competencies, which the model lists in creation order |
| SubjectsService.SubjectsService.GetAllSubjects | apps/backend/src/modules/subjects/services/subjects.service.ts:75-107 | every stored subject, in creation order, each with a competency list |
| SubjectsService.SubjectsService.CreateSubject | apps/backend/src/modules/subjects/services/subjects.service.ts:25-70 | a null or undefined body fails at the log line with a `TypeError` (a 500, not a 400) and writes nothing; an invalid body fails next; a taken name is already-exists and writes nothing; otherwise the subject is stored under the next id and returned with the trimmed name and no competencies |
| SubjectsService.SubjectsService.UpdateSubject | apps/backend/src/modules/subjects/services/subjects.service.ts:136-184 | the id is checked and looked up before the body is validated; a truthy name must pass validation and be free among other subjects, so renaming to its own name succeeds; on success exactly that row is rewritten with the updated fields |
| SubjectsService.SubjectsService.DeleteSubject | apps/backend/src/modules/subjects/services/subjects.service.ts:189-215 | an invalid id is bad-request and an unknown one not-found, changing nothing; otherwise the tables become the cascading delete of that subject, removing it and every competency of it, and the id counters stay |
| CompetenciesService.NameArgument | apps/backend/src/modules/competencies/services/competencies.service.ts:57 | the validated name as passed on: absent when the body had none |
| CompetenciesService.CompetenciesBySubjectAreLoaded | apps/backend/src/modules/competencies/services/competencies.service.ts:94-129 | every listed competency belongs to the subject and carries it; every competency of the subject is listed |
| CompetenciesService.CompetenciesService.constructor | apps/backend/src/modules/competencies/services/competencies.service.ts:15-27 | the service works on the given store |
| CompetenciesService.CompetenciesService.CreateCompetency | apps/backend/src/modules/competencies/services/competencies.service.ts:32-89 | a null or undefined body fails at the log line with a `TypeError` (a 500, not a 400) and writes nothing; otherwise the body is validated before the subject is looked up; then an invalid or unknown subject, a name taken in the subject, each fail and write nothing; a missing name or marks is refused by the store, writing no row but using up an id; otherwise the competency is stored under the next id with its subject |
| CompetenciesService.CompetenciesService.GetCompetenciesBySubject | apps/backend/src/modules/competencies/services/competencies.service.ts:94-129 | an invalid id is bad-request and an unknown subject not-found; otherwise exactly the subject's competencies, each carrying the subject; the model lists them in creation order |
| CompetenciesService.CompetenciesService.GetCompetencyById | apps/backend/src/modules/competencies/services/competencies.service.ts:134-153 | an invalid id is bad-request and an unknown one not-found; otherwise the competency with its subject |
| CompetenciesService.CompetenciesService.UpdateCompetency | apps/backend/src/modules/competencies/services/competencies.service.ts:158-215 | the competency is looked up before the body is validated; a present name must be free in its own subject among other competencies; on success exactly that row is rewritten with the updated fields and the marks stay in 0..10 |
| CompetenciesService.CompetenciesService.DeleteCompetency | apps/backend/src/modules/competencies/services/competencies.service.ts:220-245 | an invalid id is bad-request and an unknown one not-found, changing nothing; otherwise exactly that competency and its order entry are removed, and everything else, the id counters included, stays |
| UiTypes.SubjectIds | apps/frontend/src/types/evaluation.ts:10-17 | the ids of a subject list, position by position |
| UseSubjects.AppendSubject | apps/frontend/src/hooks/useSubjects.ts:44 | the new subject comes last and the earlier ones are unchanged |
| UseSubjects.ReplaceSubject | apps/frontend/src/hooks/useSubjects.ts:65-69 | exactly the entries with that id are replaced; length and order are kept |
| UseSubjects.RemoveSubject | apps/frontend/src/hooks/useSubjects.ts:91 | keeps exactly the subjects with another id, in their order |
| UseSubjects.ReplaceCompetencyIn | apps/frontend/src/hooks/useSubjects.ts:144-146 | exactly the competencies with that id are replaced; length and order are kept |
| UseSubjects.RemoveCompetencyFrom | apps/frontend/src/hooks/useSubjects.ts:175 | keeps exactly the competencies with another id, in their order |
| UseSubjects.AddCompetencyTo | apps/frontend/src/hooks/useSubjects.ts:111-120 | the competency is appended to the subjects with the given id only; the others are unchanged |
| UseSubjects.ReplaceCompetency | apps/frontend/src/hooks/useSubjects.ts:141-148 | every subject has its matching competencies replaced; the subject count and each competency count are kept |
| UseSubjects.RemoveCompetency | apps/frontend/src/hooks/useSubjects.ts:172-177 | every subject loses the competencies with that id; the subject count is kept |
| UseSubjects.ReplaceSubjectKeepsIds | apps/frontend/src/hooks/useSubjects.ts:65-69 | replacing with a subject of the same id keeps the id list |
| UseSubjects.ReplaceSubjectIdempotent | apps/frontend/src/hooks/useSubjects.ts:65-69 | replacing twice is replacing once |
| UseSubjects.RemoveAbsentSubject | apps/frontend/src/hooks/useSubjects.ts:91 | removing an id nobody has changes nothing |
| UseSubjects.RemoveSubjectAppend | apps/frontend/src/hooks/useSubjects.ts:91 | removing distributes over concatenation |
| UseSubjects.RemoveUndoesAppend | apps/frontend/src/hooks/useSubjects.ts:44-91 | deleting a freshly created subject restores the list |
| UseSubjects.RemoveAbsentCompetency | apps/frontend/src/hooks/useSubjects.ts:175 | removing a competency id nobody has changes nothing |
| UseSubjects.RemoveCompetencyDropsLast | apps/frontend/src/hooks/useSubjects.ts:111-175 | removing a freshly appended competency restores the list |
| UseSubjects.RemoveCompetencyUndoesAdd | apps/frontend/src/hooks/useSubjects.ts:111-177 | deleting a freshly added competency restores every subject |
| UseSubjects.SubjectsState.constructor | apps/frontend/src/hooks/useSubjects.ts:9-11 | no subjects, not loading, no error |
| UseSubjects.SubjectsState.FetchSubjects | apps/frontend/src/hooks/useSubjects.ts:17-33 | loading ends in every case; success replaces the list and clears the error; failure keeps the list and sets "Failed to fetch subjects" |
| UseSubjects.SubjectsState.CreateSubject | apps/frontend/src/hooks/useSubjects.ts:41-59 | the call's outcome is passed on; success appends the subject; failure leaves the list unchanged |
| UseSubjects.SubjectsState.UpdateSubject | apps/frontend/src/hooks/useSubjects.ts:62-84 | the call's outcome is passed on; success replaces by id; failure leaves the list unchanged |
| UseSubjects.SubjectsState.DeleteSubject | apps/frontend/src/hooks/useSubjects.ts:87-105 | the call's outcome is passed on; success removes by id; failure leaves the list unchanged |
| UseSubjects.SubjectsState.AddCompetency | apps/frontend/src/hooks/useSubjects.ts:108-135 | the call's outcome is passed on; success appends to the requested subject; failure leaves the list unchanged |
| UseSubjects.SubjectsState.UpdateCompetency | apps/frontend/src/hooks/useSubjects.ts:138-163 | the call's outcome is passed on; success replaces the competency everywhere; failure leaves the list unchanged |
| UseSubjects.SubjectsState.DeleteCompetency | apps/frontend/src/hooks/useSubjects.ts:166-191 | the call's outcome is passed on; success removes the competency everywhere; failure leaves the list unchanged |
| SubjectsContainer.Matches | apps/frontend/src/components/subjects/SubjectsContainer.tsx:34-38 | a subject matches when its lower-cased name, or the lower-cased name of some competency of it, includes the lower-cased term |
| SubjectsContainer.FilteredSubjects | apps/frontend/src/components/subjects/SubjectsContainer.tsx:33-39 | an order-preserving subsequence holding exactly the subjects whose name or some competency name contains the term, ignoring case |
| SubjectsContainer.EmptySearchKeepsAll | apps/frontend/src/components/subjects/SubjectsContainer.tsx:35 | an empty search shows every subject |
| SubjectsContainer.LowerIdempotent | apps/frontend/src/components/subjects/SubjectsContainer.tsx:35-37 | lower-casing twice is lower-casing once |
| SubjectsContainer.SearchIgnoresCase | apps/frontend/src/components/subjects/SubjectsContainer.tsx:35-37 | searching a lower-cased term shows the same subjects as the term itself |
| SubjectsContainer.FilterIdempotent | apps/frontend/src/components/subjects/SubjectsContainer.tsx:33-39 | filtering the shown list again by the same term changes nothing |
| SubjectsContainer.AllCompetenciesAppend | apps/frontend/src/components/subjects/SubjectsContainer.tsx:43-48 | the competencies of two lists joined are the two lists' competencies joined |
| SubjectsContainer.MarksSumAppend | apps/frontend/src/components/subjects/SubjectsContainer.tsx:46 | the marks of two lists joined add up |
| SubjectsContainer.CompetencyCountSumIsCount | apps/frontend/src/components/subjects/SubjectsContainer.tsx:43 | the summed competency-list lengths count every competency of every subject |
| SubjectsContainer.SubjectMarksSumIsSum | apps/frontend/src/components/subjects/SubjectsContainer.tsx:44-48 | the nested sum of marks is the sum over all competencies of all subjects |
| SubjectsContainer.ComputeStats | apps/frontend/src/components/subjects/SubjectsContainer.tsx:41-49 | the number of subjects, the number of all their competencies, and the sum of all those marks |
| SubjectsContainer.MarksSumBounds | apps/frontend/src/components/subjects/SubjectsContainer.tsx:44-48 | with marks in 0..10 the total lies between 0 and ten per competency |
| SubjectsContainer.CreatedSubjectAddsItsCompetencies | apps/frontend/src/hooks/useSubjects.ts:44 | creating a subject raises the competency total by the new subject's own count |
| SubjectsContainer.UpdatedCompetencyKeepsCount | apps/frontend/src/hooks/useSubjects.ts:141-148 | updating a competency keeps the competency total |
| SubjectsContainer.DeletedCompetencyLowersCount | apps/frontend/src/hooks/useSubjects.ts:172-177 | deleting a competency never raises the competency total |
| CompetencyForm.InitialName | apps/frontend/src/components/competencies/CompetencyForm.tsx:15 | the edited competency's name, or empty when adding |
| CompetencyForm.InitialMarks | apps/frontend/src/components/competencies/CompetencyForm.tsx:16 | the edited competency's marks as text that parses back to them, or empty when adding |
| CompetencyForm.Submission | apps/frontend/src/components/competencies/CompetencyForm.tsx:18-30 | submits exactly when the name is non-empty and the marks parse to an integer in 0..10; the untrimmed name, the parsed marks and the form's subject id go out |
| CompetencyForm.EditingResubmitsCompetency | apps/frontend/src/components/competencies/CompetencyForm.tsx:15-30 | editing a competency and submitting unchanged sends its own name and marks |
| CompetencyForm.EmptyFormSubmitsNothing | apps/frontend/src/components/competencies/CompetencyForm.tsx:15-24 | a fresh form submits nothing |
| CompetencyForm.ParseFive | apps/frontend/src/components/competencies/CompetencyForm.tsx:21 | `parseInt("5")` is 5 |
| CompetencyForm.FormNameCheckIsWeaker | apps/frontend/src/components/competencies/CompetencyForm.tsx:22 | a name of spaces passes the form and the request body but the service refuses it; a one-letter name passes the form but not the request body |
| CompetencyForm.CompetencyFormState.constructor | apps/frontend/src/components/competencies/CompetencyForm.tsx:14-16 | the fields start from the edited competency, or empty |
| CompetencyForm.CompetencyFormState.HandleSubmit | apps/frontend/src/components/competencies/CompetencyForm.tsx:18-37 | hands on exactly the submission the fields allow; clears the fields only after a submission when adding; otherwise keeps them |
| SubjectForm.InitialName | apps/frontend/src/components/subjects/SubjectForm.tsx:15 | the edited subject's name, or empty when creating |
| SubjectForm.InitialDescription | apps/frontend/src/components/subjects/SubjectForm.tsx:16 | the edited subject's description, or empty when it has none |
| SubjectForm.Submission | apps/frontend/src/components/subjects/SubjectForm.tsx:18-28 | submits exactly when the name is not blank; the trimmed name goes out, and the trimmed description or nothing when that is blank |
| SubjectForm.ResubmitIsStable | apps/frontend/src/components/subjects/SubjectForm.tsx:21-28 | submitting the submitted values again sends the same request |
| SubjectForm.SubmittedNamePassesService | apps/frontend/src/components/subjects/SubjectForm.tsx:26 | a submitted name of at most 100 characters passes the service's name check unchanged |
| SubjectForm.OneCharacterNameFailsBody | apps/frontend/src/components/subjects/SubjectForm.tsx:21-23 | a one-character name passes the form but not the request body's length check |
| SubjectForm.SubjectFormState.constructor | apps/frontend/src/components/subjects/SubjectForm.tsx:14-16 | the fields start from the edited subject, or empty |
| SubjectForm.SubjectFormState.HandleSubmit | apps/frontend/src/components/subjects/SubjectForm.tsx:18-35 | hands on exactly the submission the fields allow; clears the fields only after a submission when creating; otherwise keeps them |

## Left out

- The HTTP clients the frontend calls become a `Call` parameter that returned a value or threw. The React state setters are modelled as immediate field updates rather than scheduled ones.
- The toasts and the event tracking (`trackSubjectAction`, `trackCompetencyAction`) in the `useSubjects` updaters are left out and assumed not to throw. If one threw after the state setter ran, the updater would rethrow with the list already changed; the model does not capture that.
- Logging, in the services and in `handleServiceError`, is left out, with one exception. The log lines of `createSubject` and `createCompetency` read the body's `name` before their `try`, so a missing body fails there with a `TypeError`. The model keeps that failure (`Exceptions.PropertyReadError`), which the global filter answers with 500. No other log line affects a result.
- The `created_at` and `updated_at` timestamps and the audit columns are left out. Ordering by creation time is modelled as the order in which the store hands out ids.
- Loads without an order clause (the competency list of `getSubjectById` and `findSubjectByIdOrThrow`, and `getCompetenciesBySubject`) are modelled in creation order. The store itself promises no order for them; only `getAllSubjects` orders its result.
- Loading a relation is modelled as a computed view of the tables. TypeORM's SQL, its relation loader and the `ValidationPipe` machinery are left out. The request-body rules are predicates, and lemmas relate them to the service checks.
- Another request can insert a duplicate name between the uniqueness check and the save. That race is concurrency and is left out; the store's own constraint check refuses such a write in the model.
- The strings are ASCII: `trim` removes the six ASCII whitespace characters and `toLowerCase` maps only A-Z. Unicode whitespace and case mappings are left out.
- `parseInt` reads optional leading whitespace, an optional sign and decimal digits. Hexadecimal prefixes, other radixes and digits beyond the safe-integer range are left out.
- Numbers are integers or `NaN`, so `safeNumber` and `validateId` never see a fraction. `validateId` accepts any positive number, a non-integer one included. Non-integer ids, and marks such as 2.5 that would pass `safeNumber`, are left out.
- `validateAndCleanString`'s default `maxLength` of 255 is never used by the core, and the model always passes the limit explicitly.
- `saveSubjectSafely` and `saveCompetencySafely` also refuse a save that returns null or a record without an id. The in-memory store always returns the saved record with its id, so those branches are not modelled.
- SubjectsService.SubjectsService.UpdateSubject takes its body as a present `SubjectDto`, unlike `CreateSubject` and `CompetenciesService.UpdateCompetency`, which take an `Input` and model a missing body. In the code, a null body on a known id would fail with a `TypeError` where `updateSubject` reads `updateSubjectDto.name`. Its only caller, the PATCH route, sits behind the global validation pipe with `transform: true`, which always hands the service an object, so that failure is not modelled.
- `requireNonNull` on the injected repositories in the service constructors is left out. A Dafny reference cannot be null.
- Saving a subject cascades to the competency objects loaded with it. They are saved back unchanged, so the model writes only the subject's own row.
- create-subject.dto.ts is not part of this model. Subject creation uses the same body shape as an update, with every field optional.
- `CompetencyUtils.handleServiceError` is the same code as `SubjectUtils.handleServiceError`, and both are `Exceptions.HandleServiceError`.
- `handleThemeChange` in the container mutates CSS properties of the document and is left out.
