/** Book records and the two filters the store applies to its sequence of books:
    removal by title and selection by author. */
module Books {

  /** A book record. All three attributes are kept as text, the year included. */
  datatype Book = Book(title: string, author: string, year: string)

  /** The text `Book.__str__` produces for a record. */
  function BookLine(b: Book): (r: string)
  {
    "Title: " + b.title + ", Author: " + b.author + ", Year: " + b.year
  }

  /** `xs` is obtained from `ys` by deleting zero or more elements, so the
      relative order of what is left is that of `ys`. */
  ghost predicate IsSubsequence(xs: seq<Book>, ys: seq<Book>)
    decreases |ys|
  {
    if xs == [] then true
    else if ys == [] then false
    else (xs[0] == ys[0] && IsSubsequence(xs[1..], ys[1..])) || IsSubsequence(xs, ys[1..])
  }

  /** The books left after removing every record whose title is exactly `title`
      (the list comprehension of `Library.remove_book`). */
  function Remaining(books: seq<Book>, title: string): (r: seq<Book>)
  {
    if books == [] then []
    else if books[0].title != title then [books[0]] + Remaining(books[1..], title)
      else Remaining(books[1..], title)
  }

  /** The books whose author is exactly `author`, in store order (the list
      comprehension of `ExtendedLibrary.find_books_by_author`). */
  function ByAuthor(books: seq<Book>, author: string): (r: seq<Book>)
  {
    if books == [] then []
    else if books[0].author == author then [books[0]] + ByAuthor(books[1..], author)
      else ByAuthor(books[1..], author)
  }

  /** What removal promises: no record titled `title` is left, every other
      record is kept as often as it was stored, and the order is kept. */
  lemma {:induction false} RemainingSpec(books: seq<Book>, title: string)
    ensures forall b :: multiset(Remaining(books, title))[b] == if b.title == title then 0 else multiset(books)[b]
    ensures forall b :: b in Remaining(books, title) <==> b in books && b.title != title
    ensures IsSubsequence(Remaining(books, title), books)
  {
    if books != [] {
      assert books == [books[0]] + books[1..];
      RemainingSpec(books[1..], title);
    }
  }

  /** What selection by author promises: exactly the records by `author`,
      each as often as it is stored, in store order. */
  lemma {:induction false} ByAuthorSpec(books: seq<Book>, author: string)
    ensures forall b :: multiset(ByAuthor(books, author))[b] == if b.author == author then multiset(books)[b] else 0
    ensures forall b :: b in ByAuthor(books, author) <==> b in books && b.author == author
    ensures IsSubsequence(ByAuthor(books, author), books)
  {
    if books != [] {
      assert books == [books[0]] + books[1..];
      ByAuthorSpec(books[1..], author);
    }
  }

  /** Removal works record by record: it distributes over concatenation, so
      the survivors keep their order and their neighbours. */
  lemma {:induction false} RemainingAppend(xs: seq<Book>, ys: seq<Book>, title: string)
    ensures Remaining(xs + ys, title) == Remaining(xs, title) + Remaining(ys, title)
  {
    if xs == [] {
      assert xs + ys == ys;
    } else {
      assert (xs + ys)[0] == xs[0];
      assert (xs + ys)[1..] == xs[1..] + ys;
      RemainingAppend(xs[1..], ys, title);
    }
  }

  /** Removing a book that was just added: the new record is dropped when its
      title matches and kept at the end otherwise. */
  lemma RemainingAfterAdd(books: seq<Book>, b: Book, title: string)
    ensures Remaining(books + [b], title)
         == if b.title == title then Remaining(books, title) else Remaining(books, title) + [b]
  {
    RemainingAppend(books, [b], title);
    assert [b][1..] == [];
  }

  /** Removing a title that no record carries leaves the sequence unchanged. */
  lemma {:induction false} RemainingWhenAbsent(books: seq<Book>, title: string)
    requires forall b :: b in books ==> b.title != title
    ensures Remaining(books, title) == books
  {
    if books != [] {
      assert books[0] in books;
      forall b | b in books[1..] ensures b.title != title {
        assert b in books;
      }
      RemainingWhenAbsent(books[1..], title);
    }
  }

  /** Removing the same title twice is the same as removing it once. */
  lemma {:induction false} RemainingIdempotent(books: seq<Book>, title: string)
    ensures Remaining(Remaining(books, title), title) == Remaining(books, title)
  {
    RemainingSpec(books, title);
    RemainingWhenAbsent(Remaining(books, title), title);
  }

  /** Selection by author distributes over concatenation. */
  lemma {:induction false} ByAuthorAppend(xs: seq<Book>, ys: seq<Book>, author: string)
    ensures ByAuthor(xs + ys, author) == ByAuthor(xs, author) + ByAuthor(ys, author)
  {
    if xs == [] {
      assert xs + ys == ys;
    } else {
      assert (xs + ys)[0] == xs[0];
      assert (xs + ys)[1..] == xs[1..] + ys;
      ByAuthorAppend(xs[1..], ys, author);
    }
  }

  /** Selecting by author and removing by title commute: the author view of a
      store after a removal is the old author view with that removal applied. */
  lemma {:induction false} ByAuthorRemainingCommute(books: seq<Book>, author: string, title: string)
    ensures ByAuthor(Remaining(books, title), author) == Remaining(ByAuthor(books, author), title)
  {
    if books != [] {
      ByAuthorRemainingCommute(books[1..], author, title);
    }
  }

  /** The Dune record renders as the source's format string says. */
  lemma DuneLine()
    ensures BookLine(Book("Dune", "Herbert", "1965")) == "Title: Dune, Author: Herbert, Year: 1965"
  {
  }
}
