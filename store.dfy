/** The in-memory book store: an ordered sequence of books held in a field
    and changed in place, and the store variant that adds lookup by author. */
module Store {
  import opened Books

  /** The concrete store. `books` is the store's `_books` list; insertion
      order is kept and no uniqueness or sort order is imposed. */
  class Library {
    var books: seq<Book>

    /** A new store is empty. */
    constructor ()
      ensures books == []
    {
      books := [];
    }

    /** Appends `book` at the end; nothing else changes. */
    method AddBook(book: Book)
      modifies this
      ensures books == old(books) + [book]
    {
      books := books + [book];
    }

    /** Rebuilds the sequence without the records titled exactly `title`
        (case-sensitive). The other records survive, duplicates included, in
        their old order; a title no record carries changes nothing. */
    method RemoveBook(title: string)
      modifies this
      ensures books == Remaining(old(books), title)
      ensures forall b :: b in books ==> b.title != title
      ensures forall b :: b in old(books) && b.title != title ==> multiset(books)[b] == multiset(old(books))[b]
      ensures (forall b :: b in old(books) ==> b.title != title) ==> books == old(books)
    {
      RemainingSpec(books, title);
      if forall b :: b in books ==> b.title != title {
        RemainingWhenAbsent(books, title);
      }
      books := Remaining(books, title);
    }

    /** The current contents, as a value. */
    method GetBooks() returns (r: seq<Book>)
      ensures r == books
    {
      r := books;
    }
  }

  /** The store extended with lookup by author. It wraps a base store and
      reads that store's sequence without changing it. */
  class ExtendedLibrary {
    const library: Library

    /** A new extended store wraps a new, empty base store. */
    constructor ()
      ensures fresh(library) && library.books == []
    {
      library := new Library();
    }

    /** The books of the base store whose author is exactly `author`, in store
        order: exactly those records, each as often as it is stored. */
    function FindBooksByAuthor(author: string): (r: seq<Book>)
      reads library
      ensures forall b :: b in r <==> b in library.books && b.author == author
      ensures forall b: Book :: b.author == author ==> multiset(r)[b] == multiset(library.books)[b]
      ensures IsSubsequence(r, library.books)
    {
      ByAuthorSpec(library.books, author);
      ByAuthor(library.books, author)
    }
  }
}
