/**
 * BookService: create, list, get, update and delete over the book table. Each operation
 * runs in its own transaction, so each is modelled as one atomic step that either
 * completes or, when it throws, leaves the table as it was.
 */
module Service {
  import opened Wrappers
  import opened JavaText
  import opened Entity
  import opened Table
  import Dtos

  /** The failures the service and the layers around it raise. */
  datatype Error =
    | NotFound(message: string)        // NotFoundException
    | DuplicateIsbn                    // the isbn UNIQUE constraint rejected a write
    | ValidationFailed(violations: set<Dtos.Violation>)  // @Valid rejected the request body

  /** The message of the NotFoundException for an id. */
  function NotFoundMessage(id: int): string
  {
    "Book not found: " + LongToString(id)
  }

  /** The message names the id: two ids never share a message. */
  lemma NotFoundMessageNamesId(a: int, b: int)
    requires NotFoundMessage(a) == NotFoundMessage(b)
    ensures a == b
  {
    var prefix := "Book not found: ";
    assert LongToString(a) == NotFoundMessage(a)[|prefix|..];
    assert LongToString(b) == NotFoundMessage(b)[|prefix|..];
    LongToStringInjective(a, b);
  }

  /** The first id the identity column hands out. */
  const FirstId := 1

  class BookService {
    /** The book table, keyed by id. */
    var rows: Rows
    /** The next value of the identity column; every stored id is below it. */
    var nextId: int

    ghost predicate Valid()
      reads this
    {
      && FirstId <= nextId
      && (forall k | k in rows :: FirstId <= k < nextId && rows[k].id == Some(k))
      && IsbnsUnique(rows)
    }

    /** The rows findAll returns, in ascending id order: every row whose id lies below the
        identity counter, and only stored rows. */
    function Listing(): (r: seq<Book>)
      reads this
      ensures forall i | 0 <= i < |r| :: r[i] in rows.Values
      ensures forall k | k in rows && FirstId <= k < nextId :: rows[k] in r
    {
      Scan(rows, FirstId, nextId)
    }

    constructor ()
      ensures Valid() && rows == map[]
    {
      rows := map[];
      nextId := FirstId;
    }

    /** repository.save: inserts a book without an id under a fresh id, or overwrites the row
        of a book that has one; the isbn UNIQUE constraint can reject either. */
    method Save(b: Book) returns (r: Result<Book, Error>)
      requires Valid()
      requires b.id.None? || b.id.value in rows
      modifies this
      ensures Valid()
      ensures r.Failure? <==> IsbnTaken(old(rows), b.isbn, b.id)
      ensures r.Failure? ==> r.error == DuplicateIsbn && rows == old(rows)
      ensures r.Success? ==> && r.value.id.Some?
                             && r.value == b.(id := r.value.id)
                             && rows == old(rows)[r.value.id.value := r.value]
      ensures r.Success? && b.id.None? ==> r.value.id.value !in old(rows)
      ensures r.Success? && b.id.Some? ==> r.value.id == b.id
    {
      if IsbnTaken(rows, b.isbn, b.id) {
        return Failure(DuplicateIsbn);
      }
      var id: int;
      if b.id.None? {
        id := nextId;
        nextId := nextId + 1;
      } else {
        id := b.id.value;
      }
      var saved := b.(id := Some(id));
      rows := rows[id := saved];
      r := Success(saved);
    }

    /** createBook: stores a new book under an id no row had, keeping its title, isbn and
        year; a book whose isbn another row holds is rejected and nothing is stored. */
    method CreateBook(book: Book) returns (r: Result<Book, Error>)
      requires Valid()
      requires book.id.None?
      modifies this
      ensures Valid()
      ensures r.Failure? <==> IsbnTaken(old(rows), book.isbn, None)
      ensures r.Failure? ==> r.error == DuplicateIsbn && rows == old(rows)
      ensures r.Success? ==> && r.value.id.Some? && r.value.id.value !in old(rows)
                             && r.value.title == book.title
                             && r.value.isbn == book.isbn
                             && r.value.publishedYear == book.publishedYear
                             && rows == old(rows)[r.value.id.value := r.value]
    {
      r := Save(book);
    }

    /** list: the stored rows, each once. */
    method List() returns (r: seq<Book>)
      requires Valid()
      ensures r == Listing()
      ensures |r| == |IdsIn(rows, FirstId, nextId)|
      ensures forall k | k in rows :: rows[k] in r
      ensures forall i | 0 <= i < |r| :: r[i].id.Some? && r[i].id.value in rows && rows[r[i].id.value] == r[i]
      ensures forall i, j | 0 <= i < j < |r| :: r[i].id != r[j].id
    {
      r := Scan(rows, FirstId, nextId);
      ScanListsEveryRowOnce(rows, FirstId, nextId);
      forall k | k in rows
        ensures rows[k] in r
      {
        var ids := IdsIn(rows, FirstId, nextId);
        var i :| 0 <= i < |ids| && ids[i] == k;
        assert r[i] == rows[k];
      }
    }

    /** get: the stored row, or NotFound naming the id. */
    method Get(id: int) returns (r: Result<Book, Error>)
      requires Valid()
      ensures id in rows ==> r == Success(rows[id])
      ensures id !in rows ==> r == Failure(NotFound(NotFoundMessage(id)))
    {
      if id in rows {
        r := Success(rows[id]);
      } else {
        r := Failure(NotFound(NotFoundMessage(id)));
      }
    }

    /** update: loads the row (NotFound when absent), overwrites title, isbn and year with the
        patch's, nulls included, and saves; the id stays and no other row changes. */
    method Update(id: int, patch: Book) returns (r: Result<Book, Error>)
      requires Valid()
      modifies this
      ensures Valid()
      ensures id !in old(rows) ==> r == Failure(NotFound(NotFoundMessage(id))) && rows == old(rows)
      ensures id in old(rows) && IsbnTaken(old(rows), patch.isbn, Some(id)) ==>
                r == Failure(DuplicateIsbn) && rows == old(rows)
      ensures id in old(rows) && !IsbnTaken(old(rows), patch.isbn, Some(id)) ==>
                && r.Success?
                && r.value == Book(Some(id), patch.title, patch.isbn, patch.publishedYear)
                && rows == old(rows)[id := r.value]
      ensures forall k | k in old(rows) && k != id :: k in rows && rows[k] == old(rows)[k]
    {
      var got := Get(id);
      if got.Failure? {
        return Failure(got.error);
      }
      var book := new BookEntity(got.value);
      book.title := patch.title;
      book.isbn := patch.isbn;
      book.publishedYear := patch.publishedYear;
      r := Save(book.Value());
    }

    /** delete: NotFound when no row has the id; otherwise that row, and only it, is removed. */
    method Delete(id: int) returns (r: Result<(), Error>)
      requires Valid()
      modifies this
      ensures Valid()
      ensures id !in old(rows) ==> r == Failure(NotFound(NotFoundMessage(id))) && rows == old(rows)
      ensures id in old(rows) ==> r == Success(()) && rows == old(rows) - {id}
      ensures id !in rows
      ensures forall k | k in old(rows) && k != id :: k in rows && rows[k] == old(rows)[k]
    {
      if id !in rows {
        return Failure(NotFound(NotFoundMessage(id)));
      }
      rows := rows - {id};
      r := Success(());
    }
  }

  /** Once a book is deleted, get, update and delete of its id all fail with NotFound. */
  method DeletedIdIsNotFound(service: BookService, id: int, patch: Book)
    returns (got: Result<Book, Error>, updated: Result<Book, Error>, again: Result<(), Error>)
    requires service.Valid() && id in service.rows
    modifies service
    ensures service.Valid() && id !in service.rows
    ensures got == Failure(NotFound(NotFoundMessage(id)))
    ensures updated == Failure(NotFound(NotFoundMessage(id)))
    ensures again == Failure(NotFound(NotFoundMessage(id)))
  {
    var deleted := service.Delete(id);
    got := service.Get(id);
    updated := service.Update(id, patch);
    again := service.Delete(id);
  }

  /** A created book reads back with its title, isbn and year, and a second book with the
      same isbn is rejected whatever its title and year. */
  method CreateThenGetThenDuplicate(service: BookService, book: Book, other: Book)
    returns (got: Result<Book, Error>, duplicate: Result<Book, Error>)
    requires service.Valid() && book.id.None? && other.id.None?
    requires book.isbn.Some? && other.isbn == book.isbn
    requires !IsbnTaken(service.rows, book.isbn, None)
    modifies service
    ensures service.Valid()
    ensures got.Success? && got.value.title == book.title && got.value.isbn == book.isbn
    ensures got.Success? && got.value.publishedYear == book.publishedYear
    ensures duplicate == Failure(DuplicateIsbn)
  {
    var created := service.CreateBook(book);
    got := service.Get(created.value.id.value);
    assert IsbnTaken(service.rows, other.isbn, None) by {
      assert service.rows[created.value.id.value].isbn == other.isbn;
    }
    duplicate := service.CreateBook(other);
  }
}
