# Book store model

This project models a small console book store written in Python (`task_2.py`). It has four parts:

- **Book:** a record with a title, an author and a year, all three kept as text.
- **Library:** a store that keeps its books in an ordered list. You can append a book, remove every book with a given title, and read the contents. `ExtendedLibrary` adds lookup by author.
- **LibraryManager:** drives a store and logs a confirmation line for each operation. It can also log a report that lists the whole store.
- **The command loop (`main`):** reads a command word, strips and lower-cases it, then dispatches to `add`, `remove`, `show` or `exit`. Any other word gets an "invalid command" line.

The model is split into five modules:

- `Books` (`books.dfy`): the `Book` datatype, the line a book renders to, and the two list comprehensions of the store as recursive functions. `Remaining` is removal by title and `ByAuthor` is selection by author. Lemmas state what each one promises.
- `Store` (`store.dfy`): `Library` as a class whose `books` field is updated in place. `ExtendedLibrary` holds a `Library` and reads its books.
- `Manager` (`manager.dfy`): the log messages, and `ShowLines`, the report for a store. `LibraryManager` is a class whose methods return the lines they log.
- `Text` (`text.dfy`): `str.strip()` and `str.lower()` over ASCII.
- `Session` (`session.dfy`): the loop body as a pure step function `Step`, and the loop over a whole input sequence as `RunSpec`. `Run` is the imperative `main` loop, proved equal to `RunSpec`.

Logged lines are returned as sequences of strings. The terminal input is passed in as already-read `Request` records: one record per round, holding the command word and the raw field lines. The model strips each field before use.

## Model

| member | source | states |
|---|---|---|
| `Store.Library.constructor` | task_2.py:42-43 | a new store is empty |
| `Store.Library.AddBook` | task_2.py:45-46 | the store becomes the old store with the book appended at the end, and nothing else changes |
| `Store.Library.RemoveBook` | task_2.py:48-49 | the store becomes the old store without the records titled exactly `title`. No record with that title remains, every other record keeps its multiplicity, and an absent title leaves the store unchanged |
| `Store.Library.GetBooks` | task_2.py:51-52 | returns the current contents and changes nothing |
| `Store.ExtendedLibrary.constructor` | task_2.py:80 | an extended store starts over a fresh, empty base store |
| `Store.ExtendedLibrary.FindBooksByAuthor` | task_2.py:81-82 | returns exactly the records by `author` (membership iff), each as often as it is stored, as a subsequence of the store in store order. It reads the store without changing it |
| `Books.BookLine` | task_2.py:21-22 | `Book.__str__`; no ensures of its own. `Manager.BookLinesSpec` states how it is used in the report, and `Books.DuneLine` gives a concrete rendering |
| `Books.Remaining` | task_2.py:49 | the comprehension of `remove_book`; no ensures of its own. `Books.RemainingSpec` states it |
| `Books.ByAuthor` | task_2.py:82 | the comprehension of `find_books_by_author`; no ensures of its own. `Books.ByAuthorSpec` states it |
| `Books.RemainingSpec` | task_2.py:49 | removal drops every record with the title, keeps every other record with its multiplicity, and keeps store order (subsequence) |
| `Books.ByAuthorSpec` | task_2.py:82 | selection keeps exactly the records by the author, with their multiplicities, in store order |
| `Books.RemainingAppend` | task_2.py:49 | removal distributes over concatenation |
| `Books.RemainingAfterAdd` | task_2.py:45-49 | removing right after adding drops the new record iff its title matches, and otherwise keeps it last |
| `Books.RemainingWhenAbsent` | task_2.py:49 | removing a title no record carries is a no-op |
| `Books.RemainingIdempotent` | task_2.py:49 | removing a title twice equals removing it once |
| `Books.ByAuthorAppend` | task_2.py:82 | selection by author distributes over concatenation |
| `Books.ByAuthorRemainingCommute` | task_2.py:49-82 | selecting by author after a removal equals removing from the author selection |
| `Books.DuneLine` | task_2.py:21-22 | the record ("Dune", "Herbert", "1965") renders as `Title: Dune, Author: Herbert, Year: 1965` |
| `Manager.AddedMessage` | task_2.py:63 | the add confirmation; no ensures of its own. `Manager.LibraryManager.AddBook` and `Session.Step` state when it is logged |
| `Manager.RemovedMessage` | task_2.py:67 | the remove confirmation; no ensures of its own. `Manager.LibraryManager.RemoveBook` and `Session.Step` state when it is logged |
| `Manager.BookLines` | task_2.py:73-74 | one line per book; no ensures of its own. `Manager.BookLinesSpec` and `Manager.BookLinesSnoc` state it |
| `Manager.ShowLines` | task_2.py:69-76 | the report for a store; no ensures of its own. `Manager.ShowLinesSpec` states it |
| `Manager.BookLinesSpec` | task_2.py:73-74 | one rendered line per book, the i-th line rendering the i-th book (`Book.__str__`, lines 21-22) |
| `Manager.BookLinesSnoc` | task_2.py:73-74 | rendering one more book appends its line |
| `Manager.ShowLinesSpec` | task_2.py:69-76 | an empty store yields only the empty-store message. Otherwise the report is the header followed by exactly one line per book, in store order |
| `Manager.LibraryManager.constructor` | task_2.py:57-58 | the manager holds the given store |
| `Manager.LibraryManager.AddBook` | task_2.py:60-63 | the store gains the built record at its end, and exactly the "added successfully" line is logged |
| `Manager.LibraryManager.RemoveBook` | task_2.py:65-67 | the store loses every record with the title, and the "removed successfully" line is logged even when nothing matched |
| `Manager.LibraryManager.ShowBooks` | task_2.py:69-76 | its loop logs exactly `ShowLines` of the current store and changes nothing |
| `Text.IsSpace` | task_2.py:91 | the whitespace `strip()` removes: the ASCII characters Python's `str.isspace` accepts, codes 9-13 and 28-32; no ensures of its own. `Text.TrimSpec` states how `Trim` uses it |
| `Text.SkipSpaces` | task_2.py:91 | the end of the leading whitespace stays within the string and not before the start index; `Text.SkipSpacesSpec` states the rest |
| `Text.SkipSpacesBack` | task_2.py:91 | the start of the trailing whitespace stays between the lower bound and the end index; `Text.SkipSpacesBackSpec` states the rest |
| `Text.LowerChar` | task_2.py:91 | `lower()` on one character: A-Z map to a-z and every other character is kept; no ensures of its own. `Text.LowerSpec` states how `Lower` uses it |
| `Text.Trim` | task_2.py:91 | `str.strip()` over ASCII; no ensures of its own. `Text.TrimSpec` states it |
| `Text.Normalize` | task_2.py:91 | `.strip().lower()` of the command word; no ensures of its own. `Text.NormalizeIdempotent` and `Session.ClassifyByNormalForm` state it |
| `Text.SkipSpacesSpec` | task_2.py:91 | leading-whitespace skipping passes over whitespace only and stops at the first non-whitespace character |
| `Text.SkipSpacesBackSpec` | task_2.py:91 | trailing-whitespace skipping passes over whitespace only and stops after the last non-whitespace character |
| `Text.TrimSpec` | task_2.py:91 | `strip()` returns a contiguous part of its input. Everything cut on either side is whitespace, and the result neither starts nor ends with whitespace |
| `Text.TrimWhenTrimmed` | task_2.py:95-97 | a string with no surrounding whitespace is its own strip |
| `Text.Lower` | task_2.py:91 | `lower()` preserves length |
| `Text.LowerSpec` | task_2.py:91 | `lower()` works character by character |
| `Text.TrimIdempotent` | task_2.py:95-100 | stripping twice equals stripping once |
| `Text.LowerIdempotent` | task_2.py:91 | lower-casing twice equals lower-casing once |
| `Text.NormalizeIdempotent` | task_2.py:91 | the stripped, lower-cased command word is its own normal form |
| `Session.Classify` | task_2.py:91-108 | which `case` the normalised command word selects; no ensures of its own. `Session.ClassifyByNormalForm`, `Session.ClassifyCommandWords`, `Session.CommandWordScenario` and `Session.UnknownCommandScenario` state it |
| `Session.Parse` | task_2.py:91-100 | one round of input: the classified command and the stripped field lines; no ensures of its own. `Session.Run` uses it and `Session.UnknownCommandScenario` applies it |
| `Session.RunSpec` | task_2.py:90-108 | the loop over a whole input sequence; no ensures of its own. `Session.RunSpecSnoc`, `Session.RunIgnoresAfterExit`, `Session.RunExitsIff`, `Session.RunStopsAtExit` and `Session.Run` state it |
| `Session.Step` | task_2.py:93-108 | only `exit` stops the loop (iff), and only `add` and `remove` change the store. `add` appends the record and logs the added line. `remove` leaves exactly `Remaining` of the store, so no record with the title, and logs the removed line. `show` logs `ShowLines` of the store. `show`, `exit` and invalid words keep the store, every branch logs at least one line, and the exit and invalid branches log their fixed messages |
| `Session.RunSpecSnoc` | task_2.py:90-108 | a run extended by one input takes that input's step on the store the run left, and its lines come last |
| `Session.RunIgnoresAfterExit` | task_2.py:104-106 | once a run has exited, later input is ignored |
| `Session.Dispatch` | task_2.py:93-108 | the match on the command changes the manager's store and logs exactly as `Step` says |
| `Session.Run` | task_2.py:86-108 | `main` over a fresh store logs exactly the lines of `RunSpec` over the parsed input, and exits exactly when `RunSpec` does |
| `Session.RunExitsIff` | task_2.py:90-106 | a run ends with `exit` exactly when some input selects `exit` |
| `Session.RunStopsAtExit` | task_2.py:104-106 | the run equals the run of its input up to and including any `exit` |
| `Session.AddsKeepInsertionOrder` | task_2.py:94-98 | a sequence of `add` commands leaves the old records followed by the new ones in insertion order, and never exits |
| `Session.ShowTwiceIsStable` | task_2.py:102-103 | two `show` commands in a row log the same report twice and keep the store |
| `Session.LowercaseIsNormal` | task_2.py:91 | a word of lower-case letters is its own normal form |
| `Session.ClassifyByNormalForm` | task_2.py:91-93 | a command word selects the same branch as its normal form |
| `Session.ClassifyCommandWords` | task_2.py:94-104 | `add`, `remove`, `show` and `exit` select their own branches |
| `Session.CommandWordScenario` | task_2.py:91-104 | `" \tExit "` selects `exit` and `SHOW` selects `show` |
| `Session.UnknownCommandScenario` | task_2.py:107-108 | the unknown word `foo` logs the invalid-command message, keeps the store and keeps the loop going |
| `Session.AddShowRemoveShow` | task_2.py:93-103 | add, show, remove, show: the first report lists exactly the added record and the second reports an empty library |
| `Session.DuneScenario` | task_2.py:93-103 | the add, show, remove, show session for "Dune" logs the expected five lines |
| `Session.DuplicateTitlesScenario` | task_2.py:49 | one remove command removes both of two records that share a title |

## Left out

- `LibraryInterface` (task_2.py:26-37): the model has no abstract interface type. Its three operations and their contracts are stated on `Store.Library`, the only implementation.
- `ExtendedLibrary` inherits from `Library` in the source. The model gives it a base `Library` instead, so it has no `AddBook`/`RemoveBook` of its own. It reaches them through its `library` field.
- colorama initialisation and logging configuration (task_2.py:3-11): what the logger prints is returned as a sequence of lines, and the log level, format and colours are not modelled.
- `input()` and its prompts (task_2.py:91-100) are not modelled. Reading is replaced by `Request` records that carry all three field lines for every round, and a command uses only the fields it reads. End of input simply ends `Run`; the source would raise `EOFError` there.
- `Text.Trim` and `Text.Lower` cover ASCII only: `strip()` drops the ASCII whitespace that Python's `str.isspace` accepts, and `lower()` maps only A-Z. Unicode whitespace and case mappings are not modelled.
- `Store.Library.GetBooks` returns the contents as a value. The source returns the live list, and that aliasing is not modelled.
- Book objects are compared as values. Python compares them by identity, which only matters for the multiplicity statements about distinct but equal records.
