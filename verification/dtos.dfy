/**
 * The two wire shapes: the output view BookDto and the create/update input
 * BookCreateUpdateDto, with the Bean Validation constraints the input carries.
 */
module Dtos {
  import opened Wrappers
  import opened JavaText

  /** The output view of a stored book. */
  datatype BookDto = BookDto(id: Option<int>, title: Option<string>, isbn: Option<string>, publishedYear: Option<int>)

  /** The create/update input: no id, and every field may be missing from the request. */
  datatype BookCreateUpdateDto = BookCreateUpdateDto(title: Option<string>, isbn: Option<string>, publishedYear: Option<int>)

  const MaxIsbnLength := 20
  const MinYear := 1450
  const MaxYear := 2100

  /** The constraint annotations that appear on the input's fields. */
  datatype Constraint = NotBlank | SizeAtMost(max: int) | Min(bound: int) | Max(bound: int)

  /** One failed constraint on one field, as the validator reports it. */
  datatype Violation = Violation(field: string, constraint: Constraint)

  /** Every constraint the input breaks. @NotBlank fails on null; @Size, @Min and @Max
      accept null, as Bean Validation's built-in constraints do. */
  function Violations(d: BookCreateUpdateDto): (r: set<Violation>)
    ensures forall v | v in r :: v in {Violation("title", NotBlank), Violation("isbn", NotBlank),
                                       Violation("isbn", SizeAtMost(20)),
                                       Violation("publishedYear", Min(1450)), Violation("publishedYear", Max(2100))}
    ensures d.title.None? ==> Violation("title", NotBlank) in r
    ensures d.isbn.None? ==> Violation("isbn", NotBlank) in r && Violation("isbn", SizeAtMost(20)) !in r
    ensures d.publishedYear.None? ==> forall v | v in r :: v.field != "publishedYear"
  {
    (if d.title.None? || IsBlank(d.title.value) then {Violation("title", NotBlank)} else {})
    + (if d.isbn.None? || IsBlank(d.isbn.value) then {Violation("isbn", NotBlank)} else {})
    + (if d.isbn.Some? && |d.isbn.value| > MaxIsbnLength then {Violation("isbn", SizeAtMost(MaxIsbnLength))} else {})
    + (if d.publishedYear.Some? && d.publishedYear.value < MinYear then {Violation("publishedYear", Min(MinYear))} else {})
    + (if d.publishedYear.Some? && d.publishedYear.value > MaxYear then {Violation("publishedYear", Max(MaxYear))} else {})
  }

  /** The input passes validation when it breaks no constraint, which is, field by field: a
      title with a character other than whitespace; an isbn with such a character and at most
      20 characters; a year, when there is one, in [1450, 2100]. */
  predicate IsValid(d: BookCreateUpdateDto)
    ensures IsValid(d) <==>
      && d.title.Some? && (exists i | 0 <= i < |d.title.value| :: !IsWhitespace(d.title.value[i]))
      && d.isbn.Some? && (exists i | 0 <= i < |d.isbn.value| :: !IsWhitespace(d.isbn.value[i]))
      && |d.isbn.value| <= 20
      && (d.publishedYear.Some? ==> 1450 <= d.publishedYear.value <= 2100)
  {
    Violations(d) == {}
  }

  /** A missing year never fails validation: the verdict is that of the same input with any
      year in range. */
  lemma NullYearPasses(d: BookCreateUpdateDto, y: int)
    requires d.publishedYear.None? && MinYear <= y <= MaxYear
    ensures IsValid(d) == IsValid(d.(publishedYear := Some(y)))
  {
  }
}
