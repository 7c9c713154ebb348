/** The `Book` class. `Book` overrides neither `equals` nor `hashCode`, so every
    map and list in the store compares books by object identity: a book is its
    reference, and two books with the same title and author are different books. */
module Books {
  import opened JavaInt

  /** An object reference to a `Book`. */
  datatype BookId = BookId(ref: nat)

  /** The fields of a `Book`. The price, a `double`, is not modelled. */
  datatype Book = Book(title: string, author: string, stock: i32)

  /** The books allocated so far, and the next unused reference. */
  datatype Catalog = Catalog(books: map<BookId, Book>, next: nat)

  /** Every allocated reference lies below `next`. */
  predicate Valid(c: Catalog) {
    forall id :: id in c.books ==> id.ref < c.next
  }

  datatype Created = Created(id: BookId, catalog: Catalog)

  /** `new Book(title, author, price, stock)`: a fresh reference, whatever the fields. */
  function NewBook(c: Catalog, title: string, author: string, stock: i32): (r: Created)
    requires Valid(c)
    ensures r.id !in c.books
    ensures Valid(r.catalog)
    ensures r.catalog.books == c.books[r.id := Book(title, author, stock)]
  {
    var id := BookId(c.next);
    Created(id, Catalog(c.books[id := Book(title, author, stock)], c.next + 1))
  }

  /** Two allocations never share a reference, even with identical fields. */
  lemma EqualFieldsDistinctBooks(c: Catalog, title: string, author: string, stock: i32)
    requires Valid(c)
    ensures var first := NewBook(c, title, author, stock);
      var second := NewBook(first.catalog, title, author, stock);
      first.id != second.id
  {
  }
}
