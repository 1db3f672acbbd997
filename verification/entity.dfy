/**
 * The Book entity. Its Java class is not part of this model; its shape is the one its
 * builder and setters show: a nullable Long id, a title, an isbn and a nullable year.
 * Every Java field is a reference, so every field may be null.
 */
module Entity {
  import opened Wrappers

  /** The state of one Book object, which is also the value a table row holds. */
  datatype Book = Book(id: Option<int>, title: Option<string>, isbn: Option<string>, publishedYear: Option<int>)

  /** A Book object: a mutable bean whose setters the service and the mapper call. */
  class BookEntity {
    var id: Option<int>
    var title: Option<string>
    var isbn: Option<string>
    var publishedYear: Option<int>

    /** Materialises a Book object holding the given state. */
    constructor (b: Book)
      ensures Value() == b
    {
      id := b.id;
      title := b.title;
      isbn := b.isbn;
      publishedYear := b.publishedYear;
    }

    /** The object's current state. */
    function Value(): Book
      reads this
    {
      Book(id, title, isbn, publishedYear)
    }
  }
}
