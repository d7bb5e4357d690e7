/** The store manager: it drives a store and reports what it did as log lines.
    Each operation returns the lines it logs, in order. */
module Manager {
  import opened Books
  import opened Store

  /** The confirmation logged after an add. */
  function AddedMessage(title: string): (r: string)
  {
    "Book \"" + title + "\" added successfully."
  }

  /** The confirmation logged after a removal, whether or not a record matched. */
  function RemovedMessage(title: string): (r: string)
  {
    "Book \"" + title + "\" removed successfully."
  }

  const ListHeader := "Books in the library:"
  const EmptyMessage := "The library is empty."

  /** One rendered line per book, in store order. */
  function BookLines(books: seq<Book>): (r: seq<string>)
  {
    if books == [] then [] else [BookLine(books[0])] + BookLines(books[1..])
  }

  /** One line per book, the i-th line rendering the i-th book. */
  lemma {:induction false} BookLinesSpec(books: seq<Book>)
    ensures |BookLines(books)| == |books|
    ensures forall i :: 0 <= i < |books| ==> BookLines(books)[i] == BookLine(books[i])
  {
    if books != [] {
      BookLinesSpec(books[1..]);
    }
  }

  /** Rendering one more book adds its line at the end. */
  lemma {:induction false} BookLinesSnoc(books: seq<Book>, b: Book)
    ensures BookLines(books + [b]) == BookLines(books) + [BookLine(b)]
  {
    if books == [] {
      assert [b][1..] == [];
    } else {
      assert (books + [b])[1..] == books[1..] + [b];
      BookLinesSnoc(books[1..], b);
    }
  }

  /** The report for a store: the empty-store message alone, or the header
      followed by one line per book in store order. */
  function ShowLines(books: seq<Book>): (r: seq<string>)
  {
    if books == [] then [EmptyMessage] else [ListHeader] + BookLines(books)
  }

  /** What the report promises: an empty store yields the single empty-store
      line; otherwise the header comes first and then exactly one line per
      book, in store order. */
  lemma ShowLinesSpec(books: seq<Book>)
    ensures books == [] ==> ShowLines(books) == [EmptyMessage]
    ensures books != [] ==> |ShowLines(books)| == |books| + 1 && ShowLines(books)[0] == ListHeader
    ensures forall i :: 0 <= i < |books| ==> ShowLines(books)[i + 1] == BookLine(books[i])
  {
    BookLinesSpec(books);
  }

  /** The manager over one store, which it holds for its whole life. */
  class LibraryManager {
    const library: Library

    constructor (library: Library)
      ensures this.library == library
    {
      this.library := library;
    }

    /** Builds the record, appends it to the store and confirms by title:
        the store grows by exactly that record at its end. */
    method AddBook(title: string, author: string, year: string) returns (lines: seq<string>)
      modifies library
      ensures library.books == old(library.books) + [Book(title, author, year)]
      ensures lines == [AddedMessage(title)]
    {
      var book := Book(title, author, year);
      library.AddBook(book);
      lines := [AddedMessage(title)];
    }

    /** Removes every record titled `title` and confirms unconditionally, also
        when no record matched. */
    method RemoveBook(title: string) returns (lines: seq<string>)
      modifies library
      ensures library.books == Remaining(old(library.books), title)
      ensures lines == [RemovedMessage(title)]
    {
      library.RemoveBook(title);
      lines := [RemovedMessage(title)];
    }

    /** Logs the report for the current store, line by line; the store is not
        changed, so two calls in a row log the same lines. */
    method ShowBooks() returns (lines: seq<string>)
      ensures lines == ShowLines(library.books)
    {
      var books := library.GetBooks();
      if books != [] {
        lines := [ListHeader];
        var i := 0;
        while i < |books|
          invariant 0 <= i <= |books|
          invariant lines == [ListHeader] + BookLines(books[..i])
        {
          BookLinesSnoc(books[..i], books[i]);
          assert books[..i + 1] == books[..i] + [books[i]];
          lines := lines + [BookLine(books[i])];
          i := i + 1;
        }
        assert books[..i] == books;
      } else {
        lines := [EmptyMessage];
      }
    }
  }
}
