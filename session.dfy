/** The interactive command loop: one step per command word, over a store,
    until an `exit` command. What the loop reads from the terminal is given
    as already-read requests. */
module Session {
  import opened Books
  import opened Text
  import opened Store
  import opened Manager

  /** One round of terminal input as read, before stripping: the command word
      and the field lines the loop prompts for after it. `add` uses all three
      fields, `remove` only `title`, the other commands none. */
  datatype Request = Request(command: string, title: string, author: string, year: string)

  /** The store after one step, the lines it logged, and whether the loop goes on. */
  datatype StepResult = StepResult(books: seq<Book>, lines: seq<string>, running: bool)

  /** The store after a run, every line logged, and whether the run ended
      with an `exit` command (rather than running out of requests). */
  datatype RunResult = RunResult(books: seq<Book>, lines: seq<string>, exited: bool)

  const ExitMessage := "Exiting program..."
  const InvalidMessage := "Invalid command. Please try again."

  /** The five branches of the loop body's `match`. */
  datatype Command = Add | Remove | Show | Exit | Invalid

  /** Which branch a command word selects once stripped and lower-cased; any
      word other than the four known ones is invalid. */
  function Classify(word: string): (r: Command)
  {
    var w := Normalize(word);
    if w == "add" then Add
    else if w == "remove" then Remove
    else if w == "show" then Show
    else if w == "exit" then Exit
    else Invalid
  }

  /** One round of input as the loop uses it: the branch selected and the
      stripped field lines. */
  datatype Input = Input(command: Command, title: string, author: string, year: string)

  /** What the loop makes of one round of terminal input. */
  function Parse(req: Request): (r: Input)
  {
    Input(Classify(req.command), Trim(req.title), Trim(req.author), Trim(req.year))
  }

  /** Every round of a session, parsed. */
  function ParseAll(reqs: seq<Request>): (r: seq<Input>)
  {
    seq(|reqs|, i requires 0 <= i < |reqs| => Parse(reqs[i]))
  }

  /** One pass of the loop body over the store `books`: only `exit` stops
      the loop, only `add` and `remove` change the store, and every branch
      logs at least one line. */
  function Step(books: seq<Book>, input: Input): (r: StepResult)
    ensures r.running <==> input.command != Exit
    ensures |r.lines| >= 1
    ensures input.command != Add && input.command != Remove ==> r.books == books
    ensures input.command == Invalid ==> r.lines == [InvalidMessage]
    ensures input.command == Exit ==> r.lines == [ExitMessage]
    ensures input.command == Add ==>
              && r.books == books + [Book(input.title, input.author, input.year)]
              && r.lines == [AddedMessage(input.title)]
    ensures input.command == Remove ==>
              && r.books == Remaining(books, input.title)
              && (forall b :: b in r.books ==> b.title != input.title)
              && r.lines == [RemovedMessage(input.title)]
    ensures input.command == Show ==> r.lines == ShowLines(books)
  {
    match input.command
    case Add =>
      StepResult(books + [Book(input.title, input.author, input.year)], [AddedMessage(input.title)], true)
    case Remove =>
      RemainingSpec(books, input.title);
      StepResult(Remaining(books, input.title), [RemovedMessage(input.title)], true)
    case Show => StepResult(books, ShowLines(books), true)
    case Exit => StepResult(books, [ExitMessage], false)
    case Invalid => StepResult(books, [InvalidMessage], true)
  }

  /** The loop over a sequence of parsed inputs, starting from `books`: steps
      are taken in order, their lines concatenated, and the first `exit`
      ends it. */
  function RunSpec(books: seq<Book>, inputs: seq<Input>): (r: RunResult)
    decreases |inputs|
  {
    if inputs == [] then RunResult(books, [], false)
    else
      var s := Step(books, inputs[0]);
      if !s.running then RunResult(s.books, s.lines, true)
      else
        var rest := RunSpec(s.books, inputs[1..]);
        RunResult(rest.books, s.lines + rest.lines, rest.exited)
  }

  /** Running one more input after a run that has not exited: that input's
      step is taken on the store the run left, and its lines come last. */
  lemma {:induction false} RunSpecSnoc(books: seq<Book>, inputs: seq<Input>, input: Input)
    requires !RunSpec(books, inputs).exited
    decreases |inputs|
    ensures var before := RunSpec(books, inputs);
            var step := Step(before.books, input);
            RunSpec(books, inputs + [input]) == RunResult(step.books, before.lines + step.lines, !step.running)
  {
    if inputs == [] {
      assert [] + [input] == [input];
      assert [input][1..] == [];
    } else {
      var s := Step(books, inputs[0]);
      assert s.running;
      var rest := RunSpec(s.books, inputs[1..]);
      assert RunSpec(books, inputs) == RunResult(rest.books, s.lines + rest.lines, rest.exited);
      assert (inputs + [input])[0] == inputs[0];
      assert (inputs + [input])[1..] == inputs[1..] + [input];
      var longer := RunSpec(s.books, inputs[1..] + [input]);
      assert RunSpec(books, inputs + [input]) == RunResult(longer.books, s.lines + longer.lines, longer.exited);
      RunSpecSnoc(s.books, inputs[1..], input);
      var step := Step(rest.books, input);
      assert s.lines + (rest.lines + step.lines) == (s.lines + rest.lines) + step.lines;
    }
  }

  /** Once a run has exited, whatever follows is ignored. */
  lemma {:induction false} RunIgnoresAfterExit(books: seq<Book>, inputs: seq<Input>, more: seq<Input>)
    requires RunSpec(books, inputs).exited
    decreases |inputs|
    ensures RunSpec(books, inputs + more) == RunSpec(books, inputs)
  {
    assert inputs != [];
    assert (inputs + more)[0] == inputs[0];
    var s := Step(books, inputs[0]);
    if s.running {
      assert (inputs + more)[1..] == inputs[1..] + more;
      RunIgnoresAfterExit(s.books, inputs[1..], more);
    }
  }

  /** One pass of `main`'s loop body over the manager's store: the match on
      the command. It changes the store and logs exactly as `Step` says, and
      reports whether the loop goes on. */
  method Dispatch(manager: LibraryManager, input: Input) returns (lines: seq<string>, running: bool)
    modifies manager.library
    ensures StepResult(manager.library.books, lines, running) == Step(old(manager.library.books), input)
  {
    match input.command {
      case Add =>
        lines := manager.AddBook(input.title, input.author, input.year);
        running := true;
      case Remove =>
        lines := manager.RemoveBook(input.title);
        running := true;
      case Show =>
        lines := manager.ShowBooks();
        running := true;
      case Exit =>
        lines, running := [ExitMessage], false;
      case Invalid =>
        lines, running := [InvalidMessage], true;
    }
  }

  /** `main`: a fresh store and manager, then one round of input after
      another until `exit`. Returns every line logged and whether `exit` was
      reached. */
  method Run(requests: seq<Request>) returns (lines: seq<string>, exited: bool)
    ensures lines == RunSpec([], ParseAll(requests)).lines
    ensures exited == RunSpec([], ParseAll(requests)).exited
  {
    var library := new Library();
    var manager := new LibraryManager(library);
    ghost var inputs := ParseAll(requests);
    lines, exited := [], false;
    var i := 0;
    while i < |requests|
      invariant 0 <= i <= |requests|
      invariant RunSpec([], inputs[..i]) == RunResult(library.books, lines, false)
    {
      var input := Parse(requests[i]);
      assert inputs[..i + 1] == inputs[..i] + [input];
      RunSpecSnoc([], inputs[..i], input);
      var out, running := Dispatch(manager, input);
      lines := lines + out;
      if !running {
        exited := true;
        RunIgnoresAfterExit([], inputs[..i + 1], inputs[i + 1..]);
        assert inputs[..i + 1] + inputs[i + 1..] == inputs;
        break;
      }
      i := i + 1;
    }
    if !exited {
      assert inputs[..i] == inputs;
    }
  }

  /** A run ends with `exit` exactly when some input selects `exit`. */
  lemma {:induction false} RunExitsIff(books: seq<Book>, inputs: seq<Input>)
    decreases |inputs|
    ensures RunSpec(books, inputs).exited <==> exists i :: 0 <= i < |inputs| && inputs[i].command == Exit
  {
    if inputs != [] {
      var s := Step(books, inputs[0]);
      if s.running {
        RunExitsIff(s.books, inputs[1..]);
        if exists i :: 0 <= i < |inputs| && inputs[i].command == Exit {
          var i :| 0 <= i < |inputs| && inputs[i].command == Exit;
          assert inputs[1..][i - 1] == inputs[i];
        }
      }
    }
  }

  /** Nothing after an `exit` is processed: the run equals the run of the
      inputs up to and including one that exits. */
  lemma {:induction false} RunStopsAtExit(books: seq<Book>, inputs: seq<Input>, k: nat)
    requires k < |inputs| && inputs[k].command == Exit
    decreases |inputs|
    ensures RunSpec(books, inputs) == RunSpec(books, inputs[..k + 1])
  {
    assert inputs[..k + 1][0] == inputs[0];
    var s := Step(books, inputs[0]);
    if s.running {
      assert inputs[..k + 1][1..] == inputs[1..][..k];
      RunStopsAtExit(s.books, inputs[1..], k - 1);
    }
  }

  /** The records a run of add inputs creates, in input order. */
  function AddedBooks(inputs: seq<Input>): (r: seq<Book>)
  {
    if inputs == [] then []
    else [Book(inputs[0].title, inputs[0].author, inputs[0].year)] + AddedBooks(inputs[1..])
  }

  /** A run of add commands lists the new records after the old ones, in
      insertion order, and never exits. */
  lemma {:induction false} AddsKeepInsertionOrder(books: seq<Book>, inputs: seq<Input>)
    requires forall i :: 0 <= i < |inputs| ==> inputs[i].command == Add
    decreases |inputs|
    ensures RunSpec(books, inputs).books == books + AddedBooks(inputs)
    ensures !RunSpec(books, inputs).exited
  {
    if inputs == [] {
      assert books + [] == books;
    } else {
      assert inputs[0].command == Add;
      var b := Book(inputs[0].title, inputs[0].author, inputs[0].year);
      forall i | 0 <= i < |inputs[1..]| ensures inputs[1..][i].command == Add {
        assert inputs[1..][i] == inputs[i + 1];
      }
      AddsKeepInsertionOrder(books + [b], inputs[1..]);
      assert books + [b] + AddedBooks(inputs[1..]) == books + AddedBooks(inputs);
    }
  }

  /** Two `show` commands with nothing in between log the same report twice
      and leave the store as it was. */
  lemma ShowTwiceIsStable(books: seq<Book>, i1: Input, i2: Input)
    requires i1.command == Show && i2.command == Show
    ensures RunSpec(books, [i1, i2]).lines == ShowLines(books) + ShowLines(books)
    ensures RunSpec(books, [i1, i2]).books == books
  {
    var report := ShowLines(books);
    assert [i2][1..] == [];
    assert RunSpec(books, [i2]) == RunResult(books, report + [], false);
    assert report + [] == report;
    assert [i1, i2][1..] == [i2];
  }

  /** A word of lower-case letters is its own normal form. */
  lemma LowercaseIsNormal(w: string)
    requires forall i :: 0 <= i < |w| ==> 'a' <= w[i] <= 'z'
    ensures Normalize(w) == w
  {
    TrimWhenTrimmed(w);
    LowerSpec(w);
  }

  /** The branch depends on the word's normal form only: a word selects the
      same branch as its own stripped, lower-cased form. */
  lemma ClassifyByNormalForm(word: string)
    ensures Classify(word) == Classify(Normalize(word))
  {
    NormalizeIdempotent(word);
  }

  /** The four command words select their own branches. */
  lemma ClassifyCommandWords()
    ensures Classify("add") == Add && Classify("remove") == Remove
    ensures Classify("show") == Show && Classify("exit") == Exit
  {
    LowercaseIsNormal("add");
    LowercaseIsNormal("remove");
    LowercaseIsNormal("show");
    LowercaseIsNormal("exit");
  }

  /** The command word is matched after stripping and lower-casing. */
  lemma CommandWordScenario()
    ensures Classify(" \tExit ") == Exit && Classify("SHOW") == Show
  {
    var w := " \tExit ";
    assert SkipSpaces(w, 0) == 2;
    assert SkipSpacesBack(w, 2, 7) == 6;
    assert Trim(w) == "Exit";
    LowerSpec("Exit");
    assert Normalize(w) == "exit";
    TrimWhenTrimmed("SHOW");
    LowerSpec("SHOW");
    assert Normalize("SHOW") == "show";
    ClassifyCommandWords();
  }

  /** The unknown command `foo` logs the invalid-command message, keeps the
      store and keeps the loop going. */
  lemma UnknownCommandScenario(books: seq<Book>)
    ensures Step(books, Parse(Request("foo", "", "", ""))) == StepResult(books, [InvalidMessage], true)
  {
    assert "foo"[0] == 'f' && "foo"[1] == 'o' && "foo"[2] == 'o';
    LowercaseIsNormal("foo");
  }

  /** Add a book, show, remove it by title, show: the first report lists
      exactly that record, the second reports an empty library. */
  lemma AddShowRemoveShow(title: string, author: string, year: string)
    ensures var show := Input(Show, "", "", "");
            RunSpec([], [Input(Add, title, author, year), show, Input(Remove, title, "", ""), show]).lines
              == [AddedMessage(title), ListHeader, BookLine(Book(title, author, year)),
                  RemovedMessage(title), EmptyMessage]
  {
    var add, show, remove := Input(Add, title, author, year), Input(Show, "", "", ""), Input(Remove, title, "", "");
    var book := Book(title, author, year);
    assert [] + [book] == [book];
    assert [book][1..] == [];
    assert BookLines([book]) == [BookLine(book)] + BookLines([]);
    assert Remaining([book], title) == [];
    assert [show][1..] == [];
    assert RunSpec([], [show]).lines == [EmptyMessage];
    assert [remove, show][1..] == [show];
    assert RunSpec([book], [remove, show]).lines == [RemovedMessage(title), EmptyMessage];
    assert [show, remove, show][1..] == [remove, show];
    assert RunSpec([book], [show, remove, show]).lines == [ListHeader, BookLine(book), RemovedMessage(title), EmptyMessage];
    assert [add, show, remove, show][1..] == [show, remove, show];
  }

  /** The Dune session: add "Dune" by Herbert (1965), show, remove "Dune",
      show. */
  lemma DuneScenario()
    ensures var show := Input(Show, "", "", "");
            RunSpec([], [Input(Add, "Dune", "Herbert", "1965"), show, Input(Remove, "Dune", "", ""), show]).lines
              == [AddedMessage("Dune"), ListHeader, "Title: Dune, Author: Herbert, Year: 1965",
                  RemovedMessage("Dune"), EmptyMessage]
  {
    AddShowRemoveShow("Dune", "Herbert", "1965");
    DuneLine();
  }

  /** Two records with the same title are both removed by one remove command. */
  lemma DuplicateTitlesScenario(a: Book, b: Book, input: Input)
    requires a.title == b.title && input.command == Remove && input.title == a.title
    ensures Step([a, b], input).books == []
  {
    assert [a, b][1..] == [b];
    assert [b][1..] == [];
    assert Remaining([b], a.title) == [];
  }
}
