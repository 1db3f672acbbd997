/**
 * BookMapper: MapStruct generates its implementation from the annotations, so the
 * annotations fix what each mapping does.
 */
module Mapper {
  import opened Wrappers
  import opened Entity
  import opened Dtos

  /** toDTO: every property copied, the id included. */
  function ToDto(b: Book): (r: BookDto)
    ensures r.id == b.id && r.title == b.title && r.isbn == b.isbn && r.publishedYear == b.publishedYear
  {
    BookDto(b.id, b.title, b.isbn, b.publishedYear)
  }

  /** toBook: the id is ignored, the other properties copied. */
  function ToBook(d: BookCreateUpdateDto): (r: Book)
    ensures r.id.None?
    ensures r.title == d.title && r.isbn == d.isbn && r.publishedYear == d.publishedYear
  {
    Book(None, d.title, d.isbn, d.publishedYear)
  }

  /** The state updateBookFromDto leaves behind: the id is never a target, and a property is
      replaced exactly when the input holds a value for it, otherwise it keeps its value. */
  function Patched(b: Book, d: BookCreateUpdateDto): (r: Book)
    ensures r.id == b.id
    ensures d.title.Some? ==> r.title == d.title
    ensures d.title.None? ==> r.title == b.title
    ensures d.isbn.Some? ==> r.isbn == d.isbn
    ensures d.isbn.None? ==> r.isbn == b.isbn
    ensures d.publishedYear.Some? ==> r.publishedYear == d.publishedYear
    ensures d.publishedYear.None? ==> r.publishedYear == b.publishedYear
  {
    Book(b.id,
         if d.title.Some? then d.title else b.title,
         if d.isbn.Some? then d.isbn else b.isbn,
         if d.publishedYear.Some? then d.publishedYear else b.publishedYear)
  }

  /** updateBookFromDto: patches the target object in place. */
  method UpdateBookFromDto(d: BookCreateUpdateDto, book: BookEntity)
    modifies book
    ensures book.Value() == Patched(old(book.Value()), d)
  {
    if d.title.Some? {
      book.title := d.title;
    }
    if d.isbn.Some? {
      book.isbn := d.isbn;
    }
    if d.publishedYear.Some? {
      book.publishedYear := d.publishedYear;
    }
  }

  /** An input with every property present overwrites all three, whatever the target held. */
  lemma PatchedByFullInput(b: Book, d: BookCreateUpdateDto)
    requires d.title.Some? && d.isbn.Some? && d.publishedYear.Some?
    ensures Patched(b, d) == Book(b.id, d.title, d.isbn, d.publishedYear)
    ensures Patched(b, d) == ToBook(d).(id := b.id)
  {
  }

  /** Applying the same input twice leaves the same state as applying it once. */
  lemma PatchedIdempotent(b: Book, d: BookCreateUpdateDto)
    ensures Patched(Patched(b, d), d) == Patched(b, d)
  {
  }

  /** Mapping an input to a Book and that Book to the output view keeps the input's
      properties and has no id. */
  lemma ToDtoOfToBook(d: BookCreateUpdateDto)
    ensures ToDto(ToBook(d)) == BookDto(None, d.title, d.isbn, d.publishedYear)
  {
  }

  /** The output view loses nothing: different books have different views. */
  lemma ToDtoInjective(a: Book, b: Book)
    requires ToDto(a) == ToDto(b)
    ensures a == b
  {
  }
}
