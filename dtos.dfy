/**
 * The request bodies and the constraints their validation decorators put
 * on them. Validation of these runs before any service method is called.
 */
module Dtos {
  import opened JsValues

  /** The length bounds of the `@Length(2, 100)` decorators on names. */
  const NAME_MIN_LENGTH: int := 2
  const NAME_MAX_LENGTH: int := 100

  /** The body of a subject create or update request. */
  datatype SubjectDto = SubjectDto(name: Input<string>, description: Input<string>)

  /** The body of a competency create or update request. */
  datatype CompetencyDto = CompetencyDto(name: Input<string>, marks: Input<Numeric>)

  /** `@IsString @IsNotEmpty @Length(2, 100)` on a present name. Length is
      counted on the raw string, before any trimming. */
  predicate ValidName(name: string) {
    name != "" && NAME_MIN_LENGTH <= |name| <= NAME_MAX_LENGTH
  }

  /** `@IsInt @Min(0) @Max(10)` on a present marks value. */
  predicate ValidMarks(marks: Numeric) {
    marks.Num? && 0 <= marks.n <= 10
  }

  /** `@IsOptional()`: the remaining decorators are skipped when the value
      is `null` or `undefined`. */
  predicate Optional<T>(value: Input<T>, valid: T -> bool) {
    !value.Defined? || valid(value.value)
  }

  /** `CreateCompetencyDto`: both fields are required. */
  predicate ValidCreateCompetencyDto(dto: CompetencyDto) {
    dto.name.Defined? && ValidName(dto.name.value) && dto.marks.Defined? && ValidMarks(dto.marks.value)
  }

  /** `UpdateCompetencyDto`: each field is optional, and checked when given. */
  predicate ValidUpdateCompetencyDto(dto: CompetencyDto) {
    Optional(dto.name, ValidName) && Optional(dto.marks, ValidMarks)
  }

  /** `UpdateSubjectDto`: an optional checked name; the description is any
      string or absent. */
  predicate ValidUpdateSubjectDto(dto: SubjectDto) {
    Optional(dto.name, ValidName)
  }

  /** Every valid create body is a valid update body. */
  lemma CreateCompetencyDtoIsUpdateDto(dto: CompetencyDto)
    requires ValidCreateCompetencyDto(dto)
    ensures ValidUpdateCompetencyDto(dto)
  {
  }

  /** The update bodies accept the empty object, which leaves every field
      as it is. */
  lemma EmptyUpdateBodiesAreValid()
    ensures ValidUpdateCompetencyDto(CompetencyDto(Undefined, Undefined))
    ensures ValidUpdateSubjectDto(SubjectDto(Undefined, Undefined))
    ensures !ValidCreateCompetencyDto(CompetencyDto(Undefined, Undefined))
  {
  }
}
