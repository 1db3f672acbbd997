/**
 * BookController: the bodies of its handlers as compositions of the service, the mapper
 * and the search specifications. Routing, status codes and JSON are left to the framework;
 * the @Valid check on a request body is modelled as the guard that precedes the body.
 */
module Controller {
  import opened Wrappers
  import opened JavaText
  import opened Entity
  import opened Dtos
  import opened Mapper
  import opened Specs
  import opened Table
  import opened Service

  /** The stream().map(mapper::toDTO).toList() pipeline. */
  function ToDtos(bs: seq<Book>): (r: seq<BookDto>)
    ensures |r| == |bs|
    ensures forall i | 0 <= i < |bs| :: r[i] == ToDto(bs[i])
  {
    seq(|bs|, i requires 0 <= i < |bs| => ToDto(bs[i]))
  }

  /** The search specification: unrestricted, and then each of the three optional conditions. */
  function SearchSpec(title: Option<string>, fromYear: Option<int>, toYear: Option<int>): (r: Specification)
    ensures forall b :: Satisfies(r, b) <==>
      && (TitleContains(title).Some? ==> Holds(TitleContains(title).value, b))
      && (fromYear.Some? ==> Holds(YearAtLeast(fromYear.value), b))
      && (toYear.Some? ==> Holds(YearAtMost(toYear.value), b))
  {
    And(And(And([], TitleContains(title)), YearGte(fromYear)), YearLte(toYear))
  }

  /** The search filters as the endpoint promises them, stated without LIKE: an omitted or blank
      title and an omitted year bound do not restrict. */
  predicate MatchesFilters(title: Option<string>, fromYear: Option<int>, toYear: Option<int>, b: Book)
  {
    && (title.None? || IsBlank(title.value)
        || (b.title.Some? && IsSubstring(ToLowerCase(title.value), ToLowerCase(b.title.value))))
    && (fromYear.None? || (b.publishedYear.Some? && b.publishedYear.value >= fromYear.value))
    && (toYear.None? || (b.publishedYear.Some? && b.publishedYear.value <= toYear.value))
  }

  /** For a title query free of LIKE wildcards, a book satisfies the search specification
      exactly when it passes every supplied filter. */
  lemma SearchSpecMeaning(title: Option<string>, fromYear: Option<int>, toYear: Option<int>, b: Book)
    requires title.Some? ==> NoWildcards(title.value)
    ensures Satisfies(SearchSpec(title, fromYear, toYear), b) <==> MatchesFilters(title, fromYear, toYear, b)
  {
    if title.Some? && !IsBlank(title.value) {
      TitleContainsMeaning(title.value, b);
    }
  }

  /** A lower year bound above the upper one selects no book. */
  lemma SearchEmptyYearRange(title: Option<string>, fromYear: int, toYear: int, b: Book)
    requires fromYear > toYear
    ensures !Satisfies(SearchSpec(title, Some(fromYear), Some(toYear)), b)
  {
    EmptyYearRange(fromYear, toYear, b);
  }

  class BookController {
    const service: BookService

    constructor (service: BookService)
      ensures this.service == service
    {
      this.service := service;
    }

    /** POST: a valid input is stored under a fresh id with its own title, isbn and year,
        and its view returned; an invalid input is rejected before anything is stored. */
    method Create(input: BookCreateUpdateDto) returns (r: Result<BookDto, Error>)
      requires service.Valid()
      modifies service
      ensures service.Valid()
      ensures !IsValid(input) ==> r == Failure(ValidationFailed(Violations(input))) && service.rows == old(service.rows)
      ensures IsValid(input) && IsbnTaken(old(service.rows), input.isbn, None) ==>
                r == Failure(DuplicateIsbn) && service.rows == old(service.rows)
      ensures IsValid(input) && !IsbnTaken(old(service.rows), input.isbn, None) ==>
                && r.Success? && r.value.id.Some? && r.value.id.value !in old(service.rows)
                && r.value == BookDto(r.value.id, input.title, input.isbn, input.publishedYear)
                && service.rows == old(service.rows)[r.value.id.value := Book(r.value.id, input.title, input.isbn, input.publishedYear)]
    {
      if !IsValid(input) {
        return Failure(ValidationFailed(Violations(input)));
      }
      var created := service.CreateBook(ToBook(input));
      if created.Failure? {
        return Failure(created.error);
      }
      r := Success(ToDto(created.value));
    }

    /** GET: one view per stored row, in the service's order. */
    method List() returns (r: seq<BookDto>)
      requires service.Valid()
      ensures r == ToDtos(service.Listing())
    {
      var books := service.List();
      r := ToDtos(books);
    }

    /** GET by id: the row's view, or NotFound naming the id. */
    method Get(id: int) returns (r: Result<BookDto, Error>)
      requires service.Valid()
      ensures id in service.rows ==> r == Success(ToDto(service.rows[id]))
      ensures id !in service.rows ==> r == Failure(NotFound(NotFoundMessage(id)))
    {
      var got := service.Get(id);
      if got.Failure? {
        return Failure(got.error);
      }
      r := Success(ToDto(got.value));
    }

    /** PUT: loads the row, patches it with the input's non-null fields, and saves the patched
        book through the service's full overwrite. Title and isbn become the input's; the year
        becomes the input's when it has one and otherwise stays; the id stays. */
    method Update(id: int, input: BookCreateUpdateDto) returns (r: Result<BookDto, Error>)
      requires service.Valid()
      modifies service
      ensures service.Valid()
      ensures !IsValid(input) ==> r == Failure(ValidationFailed(Violations(input))) && service.rows == old(service.rows)
      ensures IsValid(input) && id !in old(service.rows) ==>
                r == Failure(NotFound(NotFoundMessage(id))) && service.rows == old(service.rows)
      ensures IsValid(input) && id in old(service.rows) && IsbnTaken(old(service.rows), input.isbn, Some(id)) ==>
                r == Failure(DuplicateIsbn) && service.rows == old(service.rows)
      ensures IsValid(input) && id in old(service.rows) && !IsbnTaken(old(service.rows), input.isbn, Some(id)) ==>
                var year := if input.publishedYear.Some? then input.publishedYear
                            else old(service.rows)[id].publishedYear;
                && r == Success(BookDto(Some(id), input.title, input.isbn, year))
                && service.rows == old(service.rows)[id := Book(Some(id), input.title, input.isbn, year)]
    {
      if !IsValid(input) {
        return Failure(ValidationFailed(Violations(input)));
      }
      var got := service.Get(id);
      if got.Failure? {
        return Failure(got.error);
      }
      var existing := new BookEntity(got.value);
      UpdateBookFromDto(input, existing);
      var updated := service.Update(id, existing.Value());
      if updated.Failure? {
        return Failure(updated.error);
      }
      r := Success(ToDto(updated.value));
    }

    /** DELETE: the service's delete. */
    method Delete(id: int) returns (r: Result<(), Error>)
      requires service.Valid()
      modifies service
      ensures service.Valid()
      ensures id !in old(service.rows) ==> r == Failure(NotFound(NotFoundMessage(id))) && service.rows == old(service.rows)
      ensures id in old(service.rows) ==> r == Success(()) && service.rows == old(service.rows) - {id}
    {
      r := service.Delete(id);
    }

    /** GET /search: the views of the stored rows that satisfy the search specification, in
        id order. The repository it queries is the service's table. */
    method Search(title: Option<string>, fromYear: Option<int>, toYear: Option<int>) returns (r: seq<BookDto>)
      requires service.Valid()
      ensures r == ToDtos(FindAll(service.rows, SearchSpec(title, fromYear, toYear), FirstId, service.nextId))
      ensures (title.Some? ==> NoWildcards(title.value)) ==>
        && (forall i | 0 <= i < |r| :: && r[i].id.Some? && r[i].id.value in service.rows
                                       && r[i] == ToDto(service.rows[r[i].id.value])
                                       && MatchesFilters(title, fromYear, toYear, service.rows[r[i].id.value]))
        && (forall k | k in service.rows && MatchesFilters(title, fromYear, toYear, service.rows[k]) ::
              ToDto(service.rows[k]) in r)
        && (forall i, j | 0 <= i < j < |r| :: r[i].id != r[j].id)
    {
      var spec := SearchSpec(title, fromYear, toYear);
      r := ToDtos(FindAll(service.rows, spec, FirstId, service.nextId));
      if title.None? || NoWildcards(title.value) {
        SearchExact(service.rows, service.nextId, title, fromYear, toYear);
      }
    }
  }

  /** Search returns the views of exactly the stored rows that pass every supplied filter:
      each entry is the view of the row its id names, and that row passes; and each row that
      passes has its view among the entries. */
  lemma SearchExact(rows: Rows, hi: int, title: Option<string>, fromYear: Option<int>, toYear: Option<int>)
    requires forall k | k in rows :: FirstId <= k < hi && rows[k].id == Some(k)
    requires title.Some? ==> NoWildcards(title.value)
    ensures var r := ToDtos(FindAll(rows, SearchSpec(title, fromYear, toYear), FirstId, hi));
      && (forall i | 0 <= i < |r| :: && r[i].id.Some? && r[i].id.value in rows
                                     && r[i] == ToDto(rows[r[i].id.value])
                                     && MatchesFilters(title, fromYear, toYear, rows[r[i].id.value]))
      && (forall k | k in rows && MatchesFilters(title, fromYear, toYear, rows[k]) :: ToDto(rows[k]) in r)
      && (forall i, j | 0 <= i < j < |r| :: r[i].id != r[j].id)
  {
    var spec := SearchSpec(title, fromYear, toYear);
    var found := FindAll(rows, spec, FirstId, hi);
    var r := ToDtos(found);
    FindAllExact(rows, spec, FirstId, hi);
    forall i | 0 <= i < |r|
      ensures && r[i].id.Some? && r[i].id.value in rows
              && r[i] == ToDto(rows[r[i].id.value])
              && MatchesFilters(title, fromYear, toYear, rows[r[i].id.value])
    {
      var k := IdsIn(Where(rows, spec), FirstId, hi)[i];
      SearchSpecMeaning(title, fromYear, toYear, rows[k]);
    }
    forall k | k in rows && MatchesFilters(title, fromYear, toYear, rows[k])
      ensures ToDto(rows[k]) in r
    {
      SearchSpecMeaning(title, fromYear, toYear, rows[k]);
      var i :| 0 <= i < |found| && found[i] == rows[k];
      assert r[i] == ToDto(rows[k]);
    }
  }

  /** A search with no parameters returns the same views, in the same order, as list. */
  lemma SearchWithoutFiltersIsList(service: BookService)
    ensures ToDtos(FindAll(service.rows, SearchSpec(None, None, None), FirstId, service.nextId))
         == ToDtos(service.Listing())
  {
    FindAllUnrestricted(service.rows, FirstId, service.nextId);
  }
}
