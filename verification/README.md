# Book Management System, modelled in Dafny

The program is a console book store. It holds at most five books
(`MAX_BOOKS`) in a fixed array of `Book` objects. `count` says how many
slots are live, and `nextId` is the next id to hand out. A menu loop reads a
choice and dispatches to one of six commands. The commands add a book, list
all books, search by category, look up one id, delete one id and update one
id. Choice 7 exits.

The model has four modules:

- `Text` (text.dfy): the `java.lang.String` operations the program applies
  to what is typed. These are `trim`, which strips every code point up to
  U+0020, and `isBlank`, which tests `Character.isWhitespace`. It also
  holds the upper-casing done before a category name is looked up. Lemmas
  state what `trim` removes and that trimming is idempotent.
- `Catalog` (catalog.dfy): the store as a value. It has the live records in
  array order plus `nextId`, with one function per command: `Add`,
  `Delete`, `Update`, `Lookup`, `Filter`, `IndexOf`, `FindById`,
  `ParseCategory`. Its invariant `Valid` says ids are positive, strictly
  increasing in array order (hence unique) and below `nextId`. The lemmas
  state what each command promises, including that a deleted id is never
  handed out again.
- `BookManagement` (book_store.dfy): the program's own state, in its own
  form.
  - `Book` is a class with setters.
  - `BookStore` holds an `array<Book?>` of five slots plus `count` and
    `nextId`.
  - Each command is a method proved to follow the matching `Catalog`
    function. `deleteBook` shifts the array left in place and clears the
    freed slot. `updateBook` calls the setters on the object
    `findBookById` returned.
- `Menu` (menu.dfy): the main loop.
  - `Step` is one pass of the `switch`. `Replay` is a session over a
    sequence of turns, which stops reading at choice 7.
  - `Perform` and `Run` are the loop over a `BookStore`, proved equal to
    `Step` and `Replay`. `Session` starts that loop on a fresh, empty
    store.

The program's exceptions become `Result` values. `BookStorageFullException`
is `Err(StorageFull)` and `BookNotFoundException` is `Err(NotFound(id))`. The
early "No books ..." returns that searching by id, deleting and updating
take on an empty store are `Err(NoBooks)`. Each failure leaves the store
unchanged.

Two details of the code decide what a typed line means:

- A category line is trimmed and upper-cased before `valueOf`, so
  `" fiction "` names `FICTION`: the lookup ignores letter case
  (`Catalog.ParseCategoryIgnoresCase`).
- An update tests each new title or author line with `isBlank`, which uses
  `Character.isWhitespace`, but then stores `trim()` of it, which strips
  every code point up to U+0020. The two use different character sets.
  - A line made only of control characters such as U+0001 is not blank, yet
    it trims to the empty string. The book is then left with an empty
    title (`Catalog.UnblankTrimmedTitleIsStoredEmpty`).
  - Conversely, a line of U+2003 EM SPACE is blank and keeps the old
    title.

## Model

| member | source | states |
|---|---|---|
| Text.TrimIsInfix | BookManagementSystem.java:108-110 | `trim` keeps a contiguous infix of the line; everything it drops before and after is at most U+0020, and the result neither starts nor ends with such a character |
| Text.TrimIdempotent | BookManagementSystem.java:178-182 | trimming a stored title or author again changes nothing |
| Text.TrimEmpty | BookManagementSystem.java:108-110 | `trim` yields the empty string exactly when every character is at most U+0020 |
| Text.Trim | BookManagementSystem.java:108-110 | `String.trim`: drops the leading and the trailing characters up to U+0020 (its properties are the three rows above) |
| Text.Whitespace | BookManagementSystem.java:178 | the characters `Character.isWhitespace` accepts: TAB to CR, FS to US, space, and the Unicode space, line and paragraph separators other than the no-break spaces U+00A0, U+2007, U+202F |
| Text.IsBlank | BookManagementSystem.java:178-182 | `String.isBlank`: empty or made only of such whitespace |
| Catalog.FindById | BookManagementSystem.java:198-202 | the record at the position `IndexOf` reports, or its NotFound(id) (properties: `Catalog.FindByIdExact`) |
| Catalog.Lookup | BookManagementSystem.java:142-152 | `searchBookById`: NoBooks on an empty store without reading further, else `FindById` |
| Catalog.IndexOf | BookManagementSystem.java:204-208 | `indexOf` returns the first live position holding the id, or fails with NotFound exactly when no live book holds it |
| Catalog.IndexOfUnique | BookManagementSystem.java:204-208 | with increasing ids, any position holding the id is the one `indexOf` reports |
| Catalog.FindByIdExact | BookManagementSystem.java:198-202 | `findBookById` succeeds exactly when some live book has the id; it then returns that book, the only one with that id; otherwise it fails with NotFound(id) |
| Catalog.ParseCategory | BookManagementSystem.java:227-229 | one line of `readCategory`: trimmed, upper-cased, matched against the five constant names, or no category |
| Catalog.ParseCategoryIgnoresCase | BookManagementSystem.java:227-229 | a line names category c exactly when, trimmed, it has the name's length and every character is the name's letter in upper or lower case |
| Catalog.ParseCategoryExact | BookManagementSystem.java:223-233 | a line names a category exactly when, trimmed and upper-cased, it equals that category's constant name |
| Catalog.Filter | BookManagementSystem.java:130-140 | the category search lists a record exactly when it is a live record of that category, and never more records than are live |
| Catalog.FilterIncreasing | BookManagementSystem.java:133-138 | the matches come out in array order, so their ids still increase |
| Catalog.FilterExact | BookManagementSystem.java:130-140 | any ordered listing of exactly the live records of the category is the search result, so the result is determined by the records alone |
| Catalog.Add | BookManagementSystem.java:102-119 | `addBook`: StorageFull at capacity, else the trimmed new record with id `nextId` appended and `nextId` incremented (properties: `Catalog.AddAppends`) |
| Catalog.Delete | BookManagementSystem.java:154-167 | `deleteBook`: NoBooks on an empty store, `indexOf`'s failure, else the record at that index removed (properties: `Catalog.DeleteRemoves`) |
| Catalog.Confirms | BookManagementSystem.java:185-186 | the answer, trimmed, is "y" or "Y" |
| Catalog.Revise | BookManagementSystem.java:176-187 | the record after the setters: a blank title or author line keeps the field, any other sets its trim; the category changes only when the answer confirms; the id never changes |
| Catalog.Update | BookManagementSystem.java:169-194 | `updateBook`: NoBooks on an empty store, `findBookById`'s failure, else that record revised in place (properties: `Catalog.UpdateRevisesOne`) |
| Catalog.AddAppends | BookManagementSystem.java:102-119 | an add fails with StorageFull exactly when five books are live; otherwise it appends `Record(nextId, trim(title), trim(author), category)` after the unchanged old records, increments `nextId` and keeps the invariant |
| Catalog.DeleteRemoves | BookManagementSystem.java:154-167 | a delete fails exactly when no live book holds the id, with NoBooks on an empty store and NotFound(id) otherwise; otherwise one record goes, earlier records stay, later ones move one place forward, the id is retired, `nextId` is unchanged and the invariant is kept |
| Catalog.DeleteSurvivors | BookManagementSystem.java:154-167 | after a delete the records are exactly the old ones whose id differs from the deleted id |
| Catalog.UpdateRevisesOne | BookManagementSystem.java:169-194 | an update fails exactly when no live book holds the id, with NoBooks on an empty store and NotFound(id) otherwise; otherwise the record with that id is revised, every other record and every id stays, `nextId` is unchanged and the invariant is kept |
| Catalog.ReviseOmitted | BookManagementSystem.java:176-187 | blank title and author lines with no "y" leave the record as it was; a blank author and no "y" change at most the title |
| Catalog.UnblankTrimmedTitleIsStoredEmpty | BookManagementSystem.java:177-178 | a title line that is not blank but consists only of characters up to U+0020 replaces the title with the empty string |
| Catalog.ControlCharacterTitleIsStoredEmpty | BookManagementSystem.java:177-178 | such lines exist: the line U+0001 is not blank and is stored as the empty title |
| Catalog.AddKeepsRetired | BookManagementSystem.java:113 | an add never hands out a retired id |
| Catalog.DeleteKeepsRetired | BookManagementSystem.java:161-162 | a delete never brings a retired id back |
| Catalog.UpdateKeepsRetired | BookManagementSystem.java:176-187 | an update never brings a retired id back, because it keeps every id |
| Catalog.AddIds | BookManagementSystem.java:113 | an add on a store with room extends the id list by the old `nextId` and increments `nextId` |
| Catalog.FiveAdds | BookManagementSystem.java:51-54 | five adds on the start-up store issue ids 1 to 5 and leave `nextId` at 6 |
| Catalog.IdsNotReused | BookManagementSystem.java:104-113 | on a full store with ids 1..5 a sixth add fails; deleting 3 leaves ids 1, 2, 4, 5; the next add issues 6, not 3; the add after that fails again |
| BookManagement.Book.constructor | BookManagementSystem.java:15-20 | a new book carries exactly the given id, title, author and category |
| BookManagement.Book.SetTitle | BookManagementSystem.java:29 | only the title changes |
| BookManagement.Book.SetAuthor | BookManagementSystem.java:30 | only the author changes |
| BookManagement.Book.SetCategory | BookManagementSystem.java:31 | only the category changes |
| BookManagement.ApplyEdit | BookManagementSystem.java:176-187 | the setters the update applies leave the book equal to the revised record: a blank line keeps the field, any other line sets its trim, "y" sets the category |
| BookManagement.ShiftLeft | BookManagementSystem.java:161-162 | after the shift loop and the clearing, each slot before the removed one is unchanged, each later slot holds the object from one slot further right, the freed slot is null and the slots beyond are untouched |
| BookManagement.BookStore.constructor | BookManagementSystem.java:51-54 | the store starts empty with `nextId` 1, satisfying the invariant |
| BookManagement.BookStore.AddBook | BookManagementSystem.java:102-119 | the store changes exactly as `Catalog.Add` says, the new book is a fresh object in the first free slot, the old slots are untouched, and a failed add changes nothing |
| BookManagement.BookStore.Appended | BookManagementSystem.java:113 | writing a fresh book into slot `count` and incrementing both counters keeps the invariant and appends that book's record |
| BookManagement.BookStore.ViewBooks | BookManagementSystem.java:121-128 | the listing is every live book in array order |
| BookManagement.BookStore.SearchBooksByCategory | BookManagementSystem.java:130-140 | the matches are `Catalog.Filter` of the live books, and `found` is true exactly when there is a match |
| BookManagement.BookStore.FindBookById | BookManagementSystem.java:198-202 | returns the object in the first slot holding the id, or NotFound(id) exactly when `Catalog.IndexOf` fails |
| BookManagement.BookStore.IndexOf | BookManagementSystem.java:204-208 | returns the same result as `Catalog.IndexOf` of the live books, and that slot holds the id |
| BookManagement.BookStore.SearchBookById | BookManagementSystem.java:142-152 | returns `Catalog.Lookup`: NoBooks on an empty store, else the book with the id or NotFound |
| BookManagement.BookStore.DeleteBook | BookManagementSystem.java:154-167 | the store changes exactly as `Catalog.Delete` says, and a failed delete changes nothing |
| BookManagement.BookStore.ShiftOut | BookManagementSystem.java:161-162 | shifting left and decrementing `count` keeps the invariant, keeps the book objects (moved one slot) and removes exactly the k-th record |
| BookManagement.BookStore.Shifted | BookManagementSystem.java:161-162 | a state whose slots are the old ones shifted left over slot k is valid and holds the old records without the k-th |
| BookManagement.BookStore.UpdateBook | BookManagementSystem.java:169-194 | the store changes exactly as `Catalog.Update` says, the array and counters stay, the reported book is the revised old record, and a failed update changes nothing |
| BookManagement.BookStore.OneBookChanged | BookManagementSystem.java:174-187 | mutating only the book in slot k keeps the invariant and changes only the k-th record |
| BookManagement.BookStore.DistinctBooks | BookManagementSystem.java:174 | the live slots hold pairwise different objects, so the setters on the found book touch no other slot |
| Menu.Step | BookManagementSystem.java:63-82 | one pass: a non-number is reported; choices 1 to 6 run `Add`, the listing, `Filter`, `Lookup`, `Delete`, `Update`; 7 reports the exit and stops; anything else is an invalid choice |
| Menu.Replay | BookManagementSystem.java:59-83 | the loop over a sequence of turns, passing each to `Step` until one stops it and reading no turn after that |
| Menu.OnlySevenExits | BookManagementSystem.java:70-82 | a pass ends the loop, and reports "Exiting...", exactly on choice 7 |
| Menu.StoreChangesOnlyOnSuccess | BookManagementSystem.java:63-82 | a non-number and an unknown choice are reported and change nothing; only a successful add, delete or update changes the store |
| Menu.StepKeepsValid | BookManagementSystem.java:70-82 | every pass keeps the invariant, never lowers `nextId` and never brings a retired id back |
| Menu.ReplayCounts | BookManagementSystem.java:59-83 | a session reports once per turn it takes, and stops before the input ends only after a turn choosing 7 that reported "Exiting..." |
| Menu.ReplayStops | BookManagementSystem.java:59-83 | once the loop has exited, further input changes nothing |
| Menu.ReplayKeepsValid | BookManagementSystem.java:59-83 | a whole session keeps the invariant, never lowers `nextId` and keeps retired every id retired when it started |
| Menu.ReplayNeverReissues | BookManagementSystem.java:59-83 | an id retired at any point of a session, for instance by a delete in it, is still retired at every later point: no later add hands it out again |
| Menu.Perform | BookManagementSystem.java:70-82 | one pass over the array-backed store changes it and reports exactly as `Step` says |
| Menu.Run | BookManagementSystem.java:59-83 | the loop over the array-backed store ends in the state, reports, turn count and mode `Replay` gives |
| Menu.Session | BookManagementSystem.java:56-85 | `main` on a fresh store behaves as `Replay` from the empty store with `nextId` 1 |

## Left out

- Console output is not modelled: the banner, `printMenu`, prompts and messages. Each pass's report is an `Outcome` value instead. `Book.toString` is left out with it.
- The end of the input is not modelled. At end of input `hasNextInt` is false and the following `nextLine` (the one after it at line 65, or any a command makes) throws `NoSuchElementException`, which `main` does not catch, so the program dies. A session here is a finite sequence of turns; when the turns run out before choice 7, `Replay` and `Run` end in `Running`, as if the program were waiting for more input.
- The `Scanner` is not modelled. A turn carries its input already parsed: the choice, then the id, title, author, category and update answers that the command would read. This includes which lines each command consumes; for example, an id command on an empty store reads no id.
- The retry loops of `readInt` and `readCategory` are not modelled. They repeat until the input parses, so a turn carries the value they finally return. Only the lookup of one category line is modelled (`Catalog.ParseCategory`).
- What `hasNextInt` accepts as an integer (signs, out-of-range digits) is not modelled; the turn says whether the line was a number.
- Java `int` arithmetic is not modelled. `nextId` is unbounded here, while Java's would wrap after 2^31 - 1 adds.
- Text.Upper: upper-cases ASCII letters only. Java's `toUpperCase` also maps other letters, some of them onto ASCII (for example U+0131 and U+017F); such lines name a category in Java but not in the model. It also follows the default locale: under a Turkish or Azeri locale `i` upper-cases to U+0130, so "fiction", "science", "history" and "comics" name no category there, while the model accepts them.
- Strings are sequences of Unicode scalar values, not UTF-16 code units; every character `trim` and `isBlank` test lies in the Basic Multilingual Plane.
- Exception objects and their messages are not modelled; they become `Failure` values.
- The static fields of the program become one `BookStore` object.
