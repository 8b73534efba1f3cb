/** The program's main loop: it reads a choice, dispatches to one command,
    and goes on until choice 7.  `Step` and `Replay` say, as functions on
    Catalog's store value, what one pass and a whole session do; `Perform`
    and `Run` are the loop itself over the array-backed store and are proved
    to follow them. */
module Menu {
  import opened Text
  import opened Catalog
  import opened BookManagement

  /** Whether the loop goes on (`running`). */
  datatype Mode = Running | Terminated

  /** The input a command reads after the choice, already parsed: the id
      (choices 4, 5 and 6), the title, author and category of a new book
      (choice 1; choice 3 reads only the category), and the answers of an
      update (choice 6). */
  datatype Form = Form(id: int, title: string, author: string, category: Category, edit: Edit)

  /** One pass's input: a line that is not a number, or a number and what
      the chosen command goes on to read. */
  datatype Turn = NotANumber | Choice(choice: int, form: Form)

  /** What one pass reports.  An empty `Listing` is "No books available."
      and an empty `Matches` is "None found.". */
  datatype Outcome =
    | Added(book: Record)
    | Listing(books: seq<Record>)
    | Matches(category: Category, books: seq<Record>)
    | Found(book: Record)
    | Deleted
    | Updated(book: Record)
    | Failed(failure: Failure)
    | InvalidChoice
    | NumberExpected
    | Exiting

  /** The store after one pass, what the pass reported, and whether the
      loop goes on. */
  datatype Reaction = Reaction(store: Store, outcome: Outcome, mode: Mode)

  /** One pass of the loop: the switch over the choice. */
  function Step(st: Store, t: Turn): Reaction {
    match t
    case NotANumber => Reaction(st, NumberExpected, Running)
    case Choice(n, f) =>
      if n == 1 then
        match Add(st, f.title, f.author, f.category)
        case Ok(st') => Reaction(st', Added(Record(st.nextId, Trim(f.title), Trim(f.author), f.category)), Running)
        case Err(e) => Reaction(st, Failed(e), Running)
      else if n == 2 then
        Reaction(st, Listing(st.books), Running)
      else if n == 3 then
        Reaction(st, Matches(f.category, Filter(st.books, f.category)), Running)
      else if n == 4 then
        match Lookup(st, f.id)
        case Ok(b) => Reaction(st, Found(b), Running)
        case Err(e) => Reaction(st, Failed(e), Running)
      else if n == 5 then
        match Delete(st, f.id)
        case Ok(st') => Reaction(st', Deleted, Running)
        case Err(e) => Reaction(st, Failed(e), Running)
      else if n == 6 then
        match Update(st, f.id, f.edit)
        case Ok(st') => Reaction(st', Updated(Revise(FindById(st.books, f.id).value, f.edit)), Running)
        case Err(e) => Reaction(st, Failed(e), Running)
      else if n == 7 then
        Reaction(st, Exiting, Terminated)
      else
        Reaction(st, InvalidChoice, Running)
  }

  /** A session so far: the store, every pass's report, how many turns the
      loop has taken, and whether it goes on. */
  datatype Trace = Trace(store: Store, outcomes: seq<Outcome>, consumed: nat, mode: Mode)

  /** The loop run over a sequence of turns; once it has exited, later
      turns are never read. */
  function Replay(st: Store, turns: seq<Turn>): Trace
    decreases |turns|
  {
    if turns == [] then Trace(st, [], 0, Running)
    else
      var before := Replay(st, turns[..|turns| - 1]);
      if before.mode == Terminated then before
      else
        var r := Step(before.store, turns[|turns| - 1]);
        Trace(r.store, before.outcomes + [r.outcome], before.consumed + 1, r.mode)
  }

  // ---------------------------------------------------------------------
  // One pass

  /** Only choice 7 ends the loop. */
  lemma OnlySevenExits(st: Store, t: Turn)
    ensures Step(st, t).mode == Terminated <==> t.Choice? && t.choice == 7
    ensures Step(st, t).outcome == Exiting <==> t.Choice? && t.choice == 7
  {
  }

  /** A line that is not a number, an unknown choice, listing, searching
      and exiting leave the store as it was; so does any command that
      fails. */
  lemma StoreChangesOnlyOnSuccess(st: Store, t: Turn)
    ensures t.NotANumber? ==> Step(st, t) == Reaction(st, NumberExpected, Running)
    ensures t.Choice? && !(1 <= t.choice <= 7) ==> Step(st, t) == Reaction(st, InvalidChoice, Running)
    ensures !(t.Choice? && t.choice in {1, 5, 6}) ==> Step(st, t).store == st
    ensures Step(st, t).outcome.Failed? ==> Step(st, t).store == st
  {
  }

  /** One pass keeps the store's invariant, never lowers `nextId`, and
      never brings a retired id back. */
  lemma StepKeepsValid(st: Store, t: Turn)
    requires Valid(st)
    ensures Valid(Step(st, t).store)
    ensures Step(st, t).store.nextId >= st.nextId
    ensures forall id :: Retired(st, id) ==> Retired(Step(st, t).store, id)
  {
    if t.Choice? && t.choice == 1 && Add(st, t.form.title, t.form.author, t.form.category).Ok? {
      AddAppends(st, t.form.title, t.form.author, t.form.category);
      forall id | Retired(st, id) ensures Retired(Step(st, t).store, id) {
        AddKeepsRetired(st, t.form.title, t.form.author, t.form.category, id);
      }
    } else if t.Choice? && t.choice == 5 && Delete(st, t.form.id).Ok? {
      DeleteRemoves(st, t.form.id);
      forall id | Retired(st, id) ensures Retired(Step(st, t).store, id) {
        DeleteKeepsRetired(st, t.form.id, id);
      }
    } else if t.Choice? && t.choice == 6 && Update(st, t.form.id, t.form.edit).Ok? {
      UpdateRevisesOne(st, t.form.id, t.form.edit);
      forall id | Retired(st, id) ensures Retired(Step(st, t).store, id) {
        UpdateKeepsRetired(st, t.form.id, t.form.edit, id);
      }
    }
  }

  // ---------------------------------------------------------------------
  // A session

  /** The loop reports once per turn it takes, takes no more turns than
      there are, and stops early only because it has exited, on a turn
      that chose 7. */
  lemma {:induction false} ReplayCounts(st: Store, turns: seq<Turn>)
    ensures |Replay(st, turns).outcomes| == Replay(st, turns).consumed <= |turns|
    ensures Replay(st, turns).consumed < |turns| ==> Replay(st, turns).mode == Terminated
    ensures Replay(st, turns).mode == Terminated ==>
      var n := Replay(st, turns).consumed;
      && 0 < n
      && turns[n - 1].Choice? && turns[n - 1].choice == 7
      && Replay(st, turns).outcomes[n - 1] == Exiting
    decreases |turns|
  {
    if turns != [] {
      var init := turns[..|turns| - 1];
      ReplayCounts(st, init);
      var before := Replay(st, init);
      if before.mode == Running {
        OnlySevenExits(before.store, turns[|turns| - 1]);
      } else {
        assert turns[before.consumed - 1] == init[before.consumed - 1];
      }
    }
  }

  /** Once the loop has exited, further input changes nothing. */
  lemma {:induction false} ReplayStops(st: Store, turns: seq<Turn>, more: seq<Turn>)
    requires Replay(st, turns).mode == Terminated
    ensures Replay(st, turns + more) == Replay(st, turns)
    decreases |more|
  {
    if more == [] {
      assert turns + more == turns;
    } else {
      var init := more[..|more| - 1];
      ReplayStops(st, turns, init);
      assert (turns + more)[..|turns + more| - 1] == turns + init;
    }
  }

  /** A whole session keeps the store's invariant, never lowers `nextId`,
      and keeps retired every id that was retired when it started. */
  lemma {:induction false} ReplayKeepsValid(st: Store, turns: seq<Turn>)
    requires Valid(st)
    ensures Valid(Replay(st, turns).store)
    ensures Replay(st, turns).store.nextId >= st.nextId
    ensures forall id :: Retired(st, id) ==> Retired(Replay(st, turns).store, id)
    decreases |turns|
  {
    if turns != [] {
      var init := turns[..|turns| - 1];
      ReplayKeepsValid(st, init);
      var before := Replay(st, init);
      if before.mode == Running {
        StepKeepsValid(before.store, turns[|turns| - 1]);
      }
    }
  }

  /** An id retired at any point of a session (its book was deleted, or
      it was issued and is gone) stays retired for the rest of the session:
      no later add hands it out again. */
  lemma {:induction false} ReplayNeverReissues(st: Store, turns: seq<Turn>, p: nat, q: nat, id: int)
    requires Valid(st) && p <= q <= |turns|
    requires Retired(Replay(st, turns[..p]).store, id)
    ensures Retired(Replay(st, turns[..q]).store, id)
    decreases q
  {
    if q > p {
      ReplayNeverReissues(st, turns, p, q - 1, id);
      var init := turns[..q - 1];
      assert turns[..q][..q - 1] == init;
      var before := Replay(st, init);
      if before.mode == Running {
        ReplayKeepsValid(st, init);
        StepKeepsValid(before.store, turns[q - 1]);
      }
    }
  }

  // ---------------------------------------------------------------------
  // The loop over the array-backed store

  /** One pass: the switch, dispatching to the store's methods. */
  method Perform(lib: BookStore, t: Turn) returns (outcome: Outcome, mode: Mode)
    requires lib.Valid()
    modifies lib.Repr
    ensures lib.Valid() && fresh(lib.Repr - old(lib.Repr))
    ensures Step(old(lib.Model()), t) == Reaction(lib.Model(), outcome, mode)
  {
    mode := Running;
    if t.NotANumber? {
      outcome := NumberExpected;
      return;
    }
    var f := t.form;
    if t.choice == 1 {
      var r := lib.AddBook(f.title, f.author, f.category);
      outcome := if r.Ok? then Added(r.value) else Failed(r.failure);
    } else if t.choice == 2 {
      var listing := lib.ViewBooks();
      outcome := Listing(listing);
    } else if t.choice == 3 {
      var matches, found := lib.SearchBooksByCategory(f.category);
      outcome := Matches(f.category, matches);
    } else if t.choice == 4 {
      var r := lib.SearchBookById(f.id);
      outcome := if r.Ok? then Found(r.value) else Failed(r.failure);
    } else if t.choice == 5 {
      var r := lib.DeleteBook(f.id);
      outcome := if r.Ok? then Deleted else Failed(r.failure);
    } else if t.choice == 6 {
      var r := lib.UpdateBook(f.id, f.edit);
      outcome := if r.Ok? then Updated(r.value) else Failed(r.failure);
    } else if t.choice == 7 {
      outcome, mode := Exiting, Terminated;
    } else {
      outcome := InvalidChoice;
    }
  }

  /** The loop: one pass per turn until choice 7.  A sequence of turns that
      ends before choice 7 stands for the input read so far; the loop then
      stops in `Running`, where the program would wait for, or fail on the
      lack of, the next line. */
  method Run(lib: BookStore, turns: seq<Turn>) returns (outcomes: seq<Outcome>, consumed: nat, mode: Mode)
    requires lib.Valid()
    modifies lib.Repr
    ensures lib.Valid() && fresh(lib.Repr - old(lib.Repr))
    ensures Replay(old(lib.Model()), turns) == Trace(lib.Model(), outcomes, consumed, mode)
  {
    ghost var st := lib.Model();
    outcomes, consumed, mode := [], 0, Running;
    while mode == Running && consumed < |turns|
      invariant lib.Valid() && fresh(lib.Repr - old(lib.Repr))
      invariant consumed <= |turns|
      invariant Replay(st, turns[..consumed]) == Trace(lib.Model(), outcomes, consumed, mode)
      decreases |turns| - consumed
    {
      assert turns[..consumed + 1][..consumed] == turns[..consumed];
      var outcome;
      outcome, mode := Perform(lib, turns[consumed]);
      outcomes := outcomes + [outcome];
      consumed := consumed + 1;
    }
    if consumed < |turns| {
      ReplayStops(st, turns[..consumed], turns[consumed..]);
      assert turns[..consumed] + turns[consumed..] == turns;
    } else {
      assert turns[..consumed] == turns;
    }
  }

  /** `main`: a session on a fresh store, which starts empty with the next
      id 1. */
  method Session(turns: seq<Turn>) returns (lib: BookStore, outcomes: seq<Outcome>, consumed: nat, mode: Mode)
    ensures lib.Valid()
    ensures Replay(Initial, turns) == Trace(lib.Model(), outcomes, consumed, mode)
  {
    lib := new BookStore();
    outcomes, consumed, mode := Run(lib, turns);
  }
}
