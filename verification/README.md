# Library catalog service — Dafny model

A model of the book catalogue of a small Spring service: a table of books keyed by id,
the service that creates, lists, reads, updates and deletes them, the MapStruct mapper
between the entity and its two wire shapes, the three optional search conditions, the
Bean Validation constraints on the create/update input, and the controller handlers that
compose all of these.

Modules, one per source file (plus two helpers):

- `Wrappers` — `Option` (a nullable reference) and `Result` (a return value or a thrown exception).
- `JavaText` — the parts of `java.lang` the core relies on: `String.isBlank`, case mapping, `Long.toString`.
- `Entity` — `Book`, the state of a book and of a table row, and `BookEntity`, the mutable bean whose setters the service and the mapper call.
- `Dtos` — `BookDto`, `BookCreateUpdateDto` and the input's constraints as `Violations` / `IsValid`.
- `Mapper` — `toDTO`, `toBook` and the null-ignoring in-place `updateBookFromDto`.
- `Specs` — `titleContains`, `yearGTE`, `yearLTE` as optional conditions, with SQL `LIKE` written out.
- `Table` — the repository: rows keyed by id, the id-ordered scan `findAll`, `findAll(spec)` and the isbn `UNIQUE` constraint.
- `Service` — class `BookService` holding the table (`rows: map<int, Book>`) and the identity counter.
- `Controller` — class `BookController`: the handler bodies without HTTP.

Every operation that throws in Java returns `Failure(...)` here; an operation that fails
leaves the table as it was, since each service call is its own transaction.

On PUT the controller first patches the loaded book with the input's non-null fields and
then hands the patched book to the service's full overwrite. The net effect, which this
model follows, is that a request without a year keeps the stored year. Handing the input
straight to the service's full overwrite would clear the year; the handler patches the
loaded book first, so it keeps it.

## Model

| member | source | states |
|---|---|---|
| `Service.BookService.Save` | src/main/java/com/readstack/library/book/BookService.java:17 | repository.save: a book without an id gets an id no row had; a book with an id overwrites that row; it fails with DuplicateIsbn, changing nothing, exactly when another row holds the same non-null isbn |
| `Service.BookService.CreateBook` | src/main/java/com/readstack/library/book/BookService.java:16-18 | stores the book under a fresh id with its title, isbn and year unchanged; a book whose isbn another row holds is rejected and the table is unchanged |
| `Service.BookService.List` | src/main/java/com/readstack/library/book/BookService.java:20-23 | returns every stored row, each once (one entry per id, each entry the row its id names) |
| `Service.BookService.Listing` | src/main/java/com/readstack/library/book/BookService.java:22 | the listing holds only stored rows and holds every stored row |
| `Service.BookService.Get` | src/main/java/com/readstack/library/book/BookService.java:25-28 | the stored row when the id is present, otherwise NotFound with message "Book not found: " + the id |
| `Service.BookService.Update` | src/main/java/com/readstack/library/book/BookService.java:30-36 | NotFound before anything changes when the id is absent; otherwise title, isbn and year become the patch's, nulls included, the id stays, and no other row changes; a clashing isbn is rejected with the table unchanged |
| `Service.BookService.Delete` | src/main/java/com/readstack/library/book/BookService.java:38-41 | NotFound with the table unchanged when the id is absent; otherwise exactly that row is removed and every other row stays |
| `Service.NotFoundMessageNamesId` | src/main/java/com/readstack/library/book/BookService.java:27 | the NotFound message names the id: two different ids never produce the same message |
| `Service.DeletedIdIsNotFound` | src/test/java/com/readstack/library/book/BookServiceTest.java:68-77 | after a successful delete, get, update and a second delete of that id all fail with NotFound |
| `Service.CreateThenGetThenDuplicate` | src/test/java/com/readstack/library/book/BookRepositoryTest.java:33-45 | a created book reads back with its title, isbn and year, and a second book with the same isbn is rejected whatever its title and year |
| `Service.BookService.constructor` | src/main/java/com/readstack/library/book/BookService.java:13-14 | a service starts over an empty table that satisfies the table invariant |
| `Table.IdsIn` | src/main/java/com/readstack/library/book/BookService.java:22 | the scan visits each id that holds a row exactly once, in ascending order |
| `Table.FindAll` | src/main/java/com/readstack/library/book/BookController.java:73 | findAll(spec) returns only stored rows, each satisfying the specification |
| `Table.ScanListsEveryRowOnce` | src/main/java/com/readstack/library/book/BookService.java:22 | for a table whose ids lie in the scanned range, the scan lists every row, each once, entry i being the row of the i-th id |
| `Table.FindAllExact` | src/main/java/com/readstack/library/book/BookController.java:73 | findAll(spec) returns exactly the stored rows the specification selects |
| `Table.FindAllUnrestricted` | src/main/java/com/readstack/library/book/BookController.java:69 | the unrestricted specification returns the plain table scan |
| `Table.And` | src/main/java/com/readstack/library/book/BookController.java:70-72 | Specification.and: with a condition, a book satisfies the result iff it satisfies the specification and the condition; a null condition leaves the specification unchanged |
| `Mapper.ToDto` | src/main/java/com/readstack/library/book/BookMapper.java:13 | toDTO copies id, title, isbn and year unchanged |
| `Mapper.ToDtoInjective` | src/main/java/com/readstack/library/book/BookMapper.java:13 | the output view loses nothing: different books have different views |
| `Mapper.ToBook` | src/main/java/com/readstack/library/book/BookMapper.java:15-16 | toBook has no id and the input's title, isbn and year |
| `Mapper.ToDtoOfToBook` | src/main/java/com/readstack/library/book/BookMapper.java:13-16 | toDTO(toBook(d)) has no id and d's title, isbn and year |
| `Mapper.UpdateBookFromDto` | src/main/java/com/readstack/library/book/BookMapper.java:18-20 | patches the target object in place to the patched state |
| `Mapper.Patched` | src/main/java/com/readstack/library/book/BookMapper.java:18-20 | the patch never changes the id; each of title, isbn and year becomes the input's when the input has a value for it and otherwise keeps its value |
| `Mapper.PatchedByFullInput` | src/test/java/com/readstack/library/book/BookMapperTest.java:43-50 | an input with all three fields present overwrites all three |
| `Mapper.PatchedIdempotent` | src/main/java/com/readstack/library/book/BookMapper.java:18-20 | applying the same input twice leaves the same state as applying it once |
| `Specs.TitleContains` | src/main/java/com/readstack/library/book/BookSpecs.java:8-14 | no condition exactly when the query is null or blank; otherwise a LIKE on the title with the pattern "%" + lower-cased query + "%" |
| `Specs.YearGte` | src/main/java/com/readstack/library/book/BookSpecs.java:16-19 | no condition exactly when the year is null; otherwise year >= the given year |
| `Specs.YearLte` | src/main/java/com/readstack/library/book/BookSpecs.java:21-24 | no condition exactly when the year is null; otherwise year <= the given year |
| `Specs.Holds` | src/main/java/com/readstack/library/book/BookSpecs.java:10-23 | a condition on the title never holds for a null title, and a year bound never holds for a null year |
| `Specs.Like` | src/main/java/com/readstack/library/book/BookSpecs.java:10-12 | LIKE with a pattern free of % and _ matches exactly the pattern itself |
| `Specs.ContainsPattern` | src/main/java/com/readstack/library/book/BookSpecs.java:10-13 | the LIKE pattern '%' + w + '%' matches a string exactly when a wildcard-free w occurs in it |
| `Specs.TitleContainsMeaning` | src/main/java/com/readstack/library/book/BookSpecs.java:8-14 | a present, non-blank, wildcard-free query selects exactly the books whose lower-cased title contains the lower-cased query |
| `Specs.TitleContainsIgnoresCase` | src/main/java/com/readstack/library/book/BookSpecs.java:11-12 | a query and its upper- or lower-cased variant yield the same condition |
| `Specs.YearBoundsMeaning` | src/main/java/com/readstack/library/book/BookSpecs.java:16-24 | yearGTE(y) selects exactly the books with a year >= y, yearLTE(y) those with a year <= y |
| `Specs.EmptyYearRange` | src/main/java/com/readstack/library/book/BookSpecs.java:16-24 | with fromYear > toYear no book satisfies both bounds |
| `Dtos.IsValid` | src/main/java/com/readstack/library/book/dto/BookCreateUpdateDto.java:19-28 | an input is valid iff its title is present and has a non-whitespace character, its isbn is present, has one and at most 20 characters, and its year, if any, lies in [1450, 2100] |
| `Dtos.Violations` | src/main/java/com/readstack/library/book/dto/BookCreateUpdateDto.java:19-28 | each reported violation is one of the five constraints on its field; a null title or isbn violates @NotBlank (and a null isbn not @Size), and a null year violates nothing |
| `Dtos.NullYearPasses` | src/main/java/com/readstack/library/book/dto/BookCreateUpdateDto.java:26-28 | a missing year never makes an input invalid |
| `Controller.ToDtos` | src/main/java/com/readstack/library/book/BookController.java:43 | the mapping pipeline keeps length and order, one view per book |
| `Controller.SearchSpec` | src/main/java/com/readstack/library/book/BookController.java:69-72 | a book satisfies the search specification iff it satisfies each of the title, lower and upper year conditions that is present |
| `Controller.SearchSpecMeaning` | src/main/java/com/readstack/library/book/BookController.java:69-72 | for a title query free of LIKE wildcards (% and _), a book satisfies the search specification iff it passes each supplied filter; omitted filters and a blank title do not restrict |
| `Controller.SearchEmptyYearRange` | src/main/java/com/readstack/library/book/BookController.java:69-72 | a search whose fromYear exceeds its toYear selects no book |
| `Controller.SearchExact` | src/main/java/com/readstack/library/book/BookController.java:64-74 | for a title query free of LIKE wildcards (% and _), search returns the views of exactly the stored rows that pass every supplied filter, with no id twice |
| `Controller.SearchWithoutFiltersIsList` | src/main/java/com/readstack/library/book/BookController.java:64-74 | a search without parameters returns the same views, in the same order, as list |
| `Controller.BookController.Create` | src/main/java/com/readstack/library/book/BookController.java:34-39 | a valid input is stored under a fresh id with its own title, isbn and year and its view returned; an invalid or duplicate-isbn input changes nothing |
| `Controller.BookController.List` | src/main/java/com/readstack/library/book/BookController.java:41-44 | one view per stored row, in the service's order |
| `Controller.BookController.Get` | src/main/java/com/readstack/library/book/BookController.java:46-49 | the row's view, or NotFound naming the id |
| `Controller.BookController.Update` | src/main/java/com/readstack/library/book/BookController.java:51-56 | NotFound with nothing changed for an absent id; otherwise title and isbn become the input's, the year the input's if present and else the stored one, and the id stays |
| `Controller.BookController.Delete` | src/main/java/com/readstack/library/book/BookController.java:58-62 | the service's delete: NotFound for an absent id, else that row removed |
| `Controller.BookController.Search` | src/main/java/com/readstack/library/book/BookController.java:64-74 | the views of findAll over the conjunction of the three optional conditions; for a title free of LIKE wildcards, exactly the views of the stored rows passing every supplied filter, with no id twice |

## Left out

- HTTP routing, status codes (201, 204, 404, 400), JSON and dependency injection: framework work without logic of its own. The `@Valid` check is kept only as the guard that rejects an invalid body before the handler runs.
- The error handler that turns failures into HTTP bodies: it reads the wall clock. NotFound is kept as an error value carrying its message.
- Transactions and concurrency: each service operation is one atomic step.
- The database and JPA: the repository is a map plus an identity counter; the id-generation strategy is not modelled beyond "a fresh id no row had".
- Service.BookService.CreateBook: requires a book without an id. A book with a preset id would be merged by JPA; the only caller passes `toBook`'s output, whose id is null.
- Service.BookService.List: the model fixes ascending id order for both table scans, `findAll()` and `findAll(spec)`, where the database promises no order; List's ensures ties its result to that ordered listing. Controller.SearchWithoutFiltersIsList concludes "in the same order" only because of this choice.
- Integer widths: ids (`Long`) and years (`Integer`) are unbounded integers; overflow of the identity column and the parsing of request parameters are not modelled.
- Specs.TitleContainsMeaning: the substring reading holds only for queries without `%` and `_`, which the code passes to LIKE unescaped; the LIKE matcher itself models them. A database default escape character (a backslash on some databases) is not modelled.
- Case mapping: `toLowerCase`, `toUpperCase` and SQL `lower` are modelled on ASCII letters only; locale rules are left out.
- Dtos.IsValid: blankness uses `Character.isWhitespace`, as `String.isBlank` does. A validator that uses `trim()` instead differs both ways: U+0000–U+0008 and U+000E–U+001B are blank to `trim()` but not to `isWhitespace`, and U+1680, U+2000–U+2006, U+2008–U+200A, U+2028, U+2029, U+205F and U+3000 are blank to `isWhitespace` but survive `trim()`.
- Dtos.IsValid: the isbn length counts characters, not UTF-16 code units; they differ for characters outside the Basic Multilingual Plane.
- SQL NULL: a row with a null year never matches an active year filter and a row with a null title never matches an active title filter, as a WHERE clause treats an unknown comparison. Column constraints of the entity other than the isbn UNIQUE constraint (NOT NULL, lengths) are unknown and not modelled.
- `BookDto` is folded into the `Dtos` module; the generated mapper implementation is modelled from its annotations; mapping a null source object is not modelled.
