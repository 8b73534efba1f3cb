/** The book store as a value: the records in the live slots of the array,
    in array order, together with the next id to hand out.  Every operation
    of the store is a function from one such value to the next, and the
    lemmas here state what the operations promise.  The class in
    book_store.dfy, which keeps the same state in an array of objects, is
    proved to follow these functions. */
module Catalog {
  import opened Text

  /** Capacity of the store (`MAX_BOOKS`). */
  const MaxBooks := 5

  datatype Category = Fiction | Science | History | Technology | Comics

  datatype Option<T> = None | Some(value: T)

  /** One book's fields at one moment. */
  datatype Record = Record(id: int, title: string, author: string, category: Category)

  /** Why an operation did nothing: the two exceptions, and the early return
      that the id-based commands take on an empty store. */
  datatype Failure = StorageFull | NotFound(id: int) | NoBooks

  datatype Result<T> = Ok(value: T) | Err(failure: Failure)

  /** The live records `books[0..count)` and the counter `nextId`. */
  datatype Store = Store(books: seq<Record>, nextId: int)

  /** The state at start-up: no books, and the first id to issue is 1. */
  const Initial := Store([], 1)

  /** Ids strictly increase in array order (so they are also unique). */
  ghost predicate Increasing(books: seq<Record>) {
    forall i, j :: 0 <= i < j < |books| ==> books[i].id < books[j].id
  }

  /** The store's invariant: within capacity, ids positive, strictly
      increasing, and all below the next id to be issued. */
  ghost predicate Valid(st: Store) {
    && |st.books| <= MaxBooks
    && 1 <= st.nextId
    && Increasing(st.books)
    && (forall i :: 0 <= i < |st.books| ==> 1 <= st.books[i].id < st.nextId)
  }

  ghost predicate Holds(books: seq<Record>, id: int) {
    exists i :: 0 <= i < |books| && books[i].id == id
  }

  /** An id that was issued once and is no longer in the store. */
  ghost predicate Retired(st: Store, id: int) {
    id < st.nextId && !Holds(st.books, id)
  }

  function Ids(books: seq<Record>): seq<int> {
    seq(|books|, i requires 0 <= i < |books| => books[i].id)
  }

  // ---------------------------------------------------------------------
  // Lookups

  /** `indexOf`: the first position holding `id`, or NotFound. */
  function IndexOf(books: seq<Record>, id: int): (r: Result<nat>)
    ensures r.Ok? ==> r.value < |books| && books[r.value].id == id
    ensures r.Ok? ==> forall j :: 0 <= j < r.value ==> books[j].id != id
    ensures r.Err? ==> r.failure == NotFound(id) && !Holds(books, id)
    decreases |books|
  {
    if |books| == 0 then Err(NotFound(id))
    else if books[0].id == id then Ok(0)
    else match IndexOf(books[1..], id)
      case Ok(k) => Ok(k + 1)
      case Err(f) => Err(f)
  }

  /** `findBookById`: the record holding `id`, or NotFound. */
  function FindById(books: seq<Record>, id: int): Result<Record> {
    match IndexOf(books, id)
    case Ok(k) => Ok(books[k])
    case Err(f) => Err(f)
  }

  /** `searchBookById`: nothing is looked up in an empty store. */
  function Lookup(st: Store, id: int): Result<Record> {
    if |st.books| == 0 then Err(NoBooks) else FindById(st.books, id)
  }

  /** With increasing ids, the position `indexOf` reports is the only one
      holding the id. */
  lemma IndexOfUnique(books: seq<Record>, id: int, i: int)
    requires Increasing(books)
    requires 0 <= i < |books| && books[i].id == id
    ensures IndexOf(books, id) == Ok(i)
  {
  }

  /** `findBookById` succeeds exactly when some live record has the id, and
      then returns that record, the only one with that id. */
  lemma FindByIdExact(books: seq<Record>, id: int)
    requires Increasing(books)
    ensures FindById(books, id).Ok? <==> Holds(books, id)
    ensures FindById(books, id).Err? ==> FindById(books, id).failure == NotFound(id)
    ensures FindById(books, id).Ok? ==>
      var b := FindById(books, id).value;
      b in books && b.id == id && forall x :: x in books && x.id == id ==> x == b
  {
    if FindById(books, id).Ok? {
      var k := IndexOf(books, id).value;
      forall x | x in books && x.id == id ensures x == books[k] {
        var i :| 0 <= i < |books| && books[i] == x;
        IndexOfUnique(books, id, i);
      }
    }
  }

  // ---------------------------------------------------------------------
  // Category names

  /** The canonical (enum constant) name of a category. */
  function Name(c: Category): string {
    match c
    case Fiction => "FICTION"
    case Science => "SCIENCE"
    case History => "HISTORY"
    case Technology => "TECHNOLOGY"
    case Comics => "COMICS"
  }

  /** `readCategory`'s lookup of one input line: trimmed, upper-cased, then
      matched against the canonical names. */
  function ParseCategory(line: string): Option<Category> {
    var key := Upper(Trim(line));
    if key == "FICTION" then Some(Fiction)
    else if key == "SCIENCE" then Some(Science)
    else if key == "HISTORY" then Some(History)
    else if key == "TECHNOLOGY" then Some(Technology)
    else if key == "COMICS" then Some(Comics)
    else None
  }

  /** A line names a category exactly when, trimmed and upper-cased, it is
      that category's canonical name. */
  lemma ParseCategoryExact(line: string, c: Category)
    ensures ParseCategory(line) == Some(c) <==> Upper(Trim(line)) == Name(c)
  {
  }

  /** Every character of a category's name is an upper-case ASCII letter. */
  lemma NameIsUpperCase(c: Category)
    ensures forall i :: 0 <= i < |Name(c)| ==> 'A' <= Name(c)[i] <= 'Z'
  {
  }

  /** A category is found regardless of letter case: a line names `c`
      exactly when, trimmed, it has the length of `c`'s name and each of its
      characters is the name's letter, upper or lower case. */
  lemma ParseCategoryIgnoresCase(line: string, c: Category)
    ensures ParseCategory(line) == Some(c) <==>
      var t := Trim(line);
      && |t| == |Name(c)|
      && forall i :: 0 <= i < |t| ==> t[i] == Name(c)[i] || t[i] as int == Name(c)[i] as int + 32
  {
    ParseCategoryExact(line, c);
    NameIsUpperCase(c);
    var t := Trim(line);
    var n := Name(c);
    if |t| == |n| {
      assert (forall i :: 0 <= i < |t| ==> Upper(t)[i] == n[i]) ==> Upper(t) == n;
    }
  }

  // ---------------------------------------------------------------------
  // Operations that change the store

  /** `addBook`: refused when the store is full; otherwise appends a book
      carrying the next id and the trimmed title and author. */
  function Add(st: Store, title: string, author: string, category: Category): Result<Store> {
    if |st.books| >= MaxBooks then Err(StorageFull)
    else Ok(Store(st.books + [Record(st.nextId, Trim(title), Trim(author), category)], st.nextId + 1))
  }

  /** `deleteBook`: removes the record holding `id`; the later records move
      one place towards the front. */
  function Delete(st: Store, id: int): Result<Store> {
    if |st.books| == 0 then Err(NoBooks)
    else match IndexOf(st.books, id)
      case Err(f) => Err(f)
      case Ok(k) => Ok(Store(st.books[..k] + st.books[k + 1..], st.nextId))
  }

  /** The lines `updateBook` reads after the id: a new title, a new author,
      the answer to "Change Category?", and the category read when that
      answer is yes. */
  datatype Edit = Edit(title: string, author: string, answer: string, category: Category)

  /** `ans.trim().equalsIgnoreCase("y")`. */
  predicate Confirms(answer: string) {
    var a := Trim(answer);
    a == "y" || a == "Y"
  }

  /** The record after `updateBook`'s setters: a blank line keeps the old
      title or author, any other line is stored trimmed; the category changes
      only on a yes; the id never changes. */
  function Revise(b: Record, e: Edit): Record {
    Record(
      b.id,
      if IsBlank(e.title) then b.title else Trim(e.title),
      if IsBlank(e.author) then b.author else Trim(e.author),
      if Confirms(e.answer) then e.category else b.category)
  }

  /** `updateBook`: revises the record holding `id` and no other. */
  function Update(st: Store, id: int, e: Edit): Result<Store> {
    if |st.books| == 0 then Err(NoBooks)
    else match IndexOf(st.books, id)
      case Err(f) => Err(f)
      case Ok(k) => Ok(st.(books := st.books[k := Revise(st.books[k], e)]))
  }

  /** `searchBooksByCategory`: the records of category `c`, in array order. */
  function Filter(books: seq<Record>, c: Category): (r: seq<Record>)
    ensures |r| <= |books|
    ensures forall x :: x in r <==> x in books && x.category == c
    decreases |books|
  {
    if books == [] then []
    else
      var rest := Filter(books[..|books| - 1], c);
      if books[|books| - 1].category == c then rest + [books[|books| - 1]] else rest
  }

  // ---------------------------------------------------------------------
  // What the operations promise

  /** Adding fails exactly at capacity and then changes nothing; otherwise
      it appends one record whose id is the old `nextId`, greater than every
      id in the store, bumps `nextId` by one and keeps the invariant. */
  lemma AddAppends(st: Store, title: string, author: string, category: Category)
    requires Valid(st)
    ensures Add(st, title, author, category).Err? <==> |st.books| == MaxBooks
    ensures Add(st, title, author, category).Err? ==>
      Add(st, title, author, category).failure == StorageFull
    ensures Add(st, title, author, category).Ok? ==>
      var st' := Add(st, title, author, category).value;
      && Valid(st')
      && |st'.books| == |st.books| + 1
      && st'.books[..|st.books|] == st.books
      && st'.books[|st.books|] == Record(st.nextId, Trim(title), Trim(author), category)
      && (forall i :: 0 <= i < |st.books| ==> st.books[i].id < st.nextId)
      && st'.nextId == st.nextId + 1
  {
    if |st.books| < MaxBooks {
      var st' := Add(st, title, author, category).value;
      assert st'.books[..|st.books|] == st.books;
    }
  }

  /** Removing position `k` shifts the later records one place towards
      the front and keeps the ids increasing. */
  lemma RemoveAt(s: seq<Record>, k: nat)
    requires Increasing(s) && k < |s|
    ensures var r := s[..k] + s[k + 1..];
      && |r| == |s| - 1
      && (forall i :: 0 <= i < |r| ==> r[i] == s[if i < k then i else i + 1])
      && Increasing(r)
  {
    var r := s[..k] + s[k + 1..];
    assert forall i :: 0 <= i < |r| ==> r[i] == s[if i < k then i else i + 1];
  }

  /** Deleting fails exactly when no live record holds the id, and then
      changes nothing.  Otherwise one record goes, the records before it stay
      where they were, the later ones move one place towards the front, the
      id is no longer found, `nextId` stays, and the invariant is kept. */
  lemma DeleteRemoves(st: Store, id: int)
    requires Valid(st)
    ensures Delete(st, id).Err? <==> !Holds(st.books, id)
    ensures Delete(st, id).Err? ==>
      Delete(st, id).failure == if |st.books| == 0 then NoBooks else NotFound(id)
    ensures Delete(st, id).Ok? ==>
      var st' := Delete(st, id).value;
      var k := IndexOf(st.books, id).value;
      && Valid(st')
      && |st'.books| == |st.books| - 1
      && (forall i :: 0 <= i < |st'.books| ==> st'.books[i] == st.books[if i < k then i else i + 1])
      && Retired(st', id)
      && st'.nextId == st.nextId
  {
    if Delete(st, id).Ok? {
      var st' := Delete(st, id).value;
      var k := IndexOf(st.books, id).value;
      RemoveAt(st.books, k);
      RemovedNotHeld(st.books, k);
    }
  }

  /** With increasing ids, removing the record at `k` removes its id. */
  lemma RemovedNotHeld(s: seq<Record>, k: nat)
    requires Increasing(s) && k < |s|
    ensures !Holds(s[..k] + s[k + 1..], s[k].id)
  {
    var r := s[..k] + s[k + 1..];
    forall i | 0 <= i < |r| ensures r[i].id != s[k].id {
      var j := if i < k then i else i + 1;
      assert r[i] == s[j];
      if j < k { assert s[j].id < s[k].id; } else { assert s[k].id < s[j].id; }
    }
  }

  /** After a delete the survivors are exactly the old records other than
      the deleted one. */
  lemma DeleteSurvivors(st: Store, id: int)
    requires Valid(st) && Delete(st, id).Ok?
    ensures forall x :: x in Delete(st, id).value.books <==> x in st.books && x.id != id
  {
    DeleteRemoves(st, id);
    var st' := Delete(st, id).value;
    var k := IndexOf(st.books, id).value;
    var s := st.books;
    forall x | x in s && x.id != id ensures x in st'.books {
      var i :| 0 <= i < |s| && s[i] == x;
      assert i != k;
      assert st'.books[if i < k then i else i - 1] == x;
    }
  }

  /** Updating fails exactly when no live record holds the id, and then
      changes nothing.  Otherwise the record holding the id is revised, every
      other record and every id stay as they were, and the invariant is
      kept. */
  lemma UpdateRevisesOne(st: Store, id: int, e: Edit)
    requires Valid(st)
    ensures Update(st, id, e).Err? <==> !Holds(st.books, id)
    ensures Update(st, id, e).Err? ==>
      Update(st, id, e).failure == if |st.books| == 0 then NoBooks else NotFound(id)
    ensures Update(st, id, e).Ok? ==>
      var st' := Update(st, id, e).value;
      && Valid(st')
      && |st'.books| == |st.books|
      && st'.nextId == st.nextId
      && Ids(st'.books) == Ids(st.books)
      && forall i :: 0 <= i < |st.books| ==>
           st'.books[i] == if st.books[i].id == id then Revise(st.books[i], e) else st.books[i]
  {
    if Update(st, id, e).Ok? {
      var k := IndexOf(st.books, id).value;
      forall i | 0 <= i < |st.books| && i != k ensures st.books[i].id != id {
        if i < k { assert st.books[i].id < st.books[k].id; } else { assert st.books[k].id < st.books[i].id; }
      }
    }
  }

  /** An update with blank title and author and no yes leaves the record as
      it was; with a blank author and no yes, only the title can differ. */
  lemma ReviseOmitted(b: Record, e: Edit)
    ensures IsBlank(e.author) && !Confirms(e.answer) ==> Revise(b, e) == b.(title := Revise(b, e).title)
    ensures IsBlank(e.title) && IsBlank(e.author) && !Confirms(e.answer) ==> Revise(b, e) == b
  {
  }

  /** A title line that is not blank but made only of characters `trim`
      strips (control characters, say) replaces the old title, yet trims to
      nothing: the book is left with an empty title. */
  lemma UnblankTrimmedTitleIsStoredEmpty(b: Record, e: Edit)
    ensures !IsBlank(e.title) && (forall i :: 0 <= i < |e.title| ==> Trimmable(e.title[i])) ==>
      Revise(b, e).title == ""
  {
    TrimEmpty(e.title);
  }

  /** Such lines exist: U+0001 is not whitespace, so the one-character line
      is not blank, and it trims to the empty string. */
  lemma ControlCharacterTitleIsStoredEmpty(b: Record, e: Edit)
    requires e.title == "\U{1}"
    ensures !IsBlank(e.title) && Revise(b, e).title == ""
  {
    assert !Whitespace(e.title[0]);
    UnblankTrimmedTitleIsStoredEmpty(b, e);
  }

  /** Filtering keeps the order of the records: with increasing ids in the
      store, the matches have increasing ids too. */
  lemma {:induction false} FilterIncreasing(books: seq<Record>, c: Category)
    requires Increasing(books)
    ensures Increasing(Filter(books, c))
    decreases |books|
  {
    if books != [] {
      var init := books[..|books| - 1];
      var last := books[|books| - 1];
      assert Increasing(init);
      FilterIncreasing(init, c);
      var rest := Filter(init, c);
      forall x | x in rest ensures x.id < last.id {
        var i :| 0 <= i < |init| && init[i] == x;
      }
    }
  }

  /** Two sequences of records with increasing ids and the same elements are
      the same sequence. */
  lemma {:induction false} SameIncreasing(a: seq<Record>, b: seq<Record>)
    requires Increasing(a) && Increasing(b)
    requires forall x :: x in a <==> x in b
    ensures a == b
    decreases |a|
  {
    if b != [] {
      assert b[0] in b;
    }
    if a != [] {
      SameHead(a, b);
      SameTail(a, b);
      SameIncreasing(a[1..], b[1..]);
      assert a == [a[0]] + a[1..];
      assert b == [b[0]] + b[1..];
    }
  }

  /** Of two such sequences, the first elements agree. */
  lemma SameHead(a: seq<Record>, b: seq<Record>)
    requires Increasing(a) && Increasing(b) && a != []
    requires forall x :: x in a <==> x in b
    ensures b != [] && a[0] == b[0]
  {
    assert a[0] in b;
    assert b[0] in a;
    var i :| 0 <= i < |a| && a[i] == b[0];
    var j :| 0 <= j < |b| && b[j] == a[0];
    assert a[0].id <= a[i].id;
    assert b[0].id <= b[j].id;
    assert i == 0;
  }

  /** Of two such sequences whose first elements agree, the remainders have
      the same elements. */
  lemma SameTail(a: seq<Record>, b: seq<Record>)
    requires Increasing(a) && Increasing(b) && a != [] && b != [] && a[0] == b[0]
    requires forall x :: x in a <==> x in b
    ensures forall x :: x in a[1..] <==> x in b[1..]
  {
    forall x | x in a[1..] ensures x in b[1..] {
      var p :| 1 <= p < |a| && a[p] == x;
      assert x in b;
      var q :| 0 <= q < |b| && b[q] == x;
      assert b[1..][q - 1] == x;
    }
    forall x | x in b[1..] ensures x in a[1..] {
      var q :| 1 <= q < |b| && b[q] == x;
      assert x in a;
      var p :| 0 <= p < |a| && a[p] == x;
      assert a[1..][p - 1] == x;
    }
  }

  /** Category search reports exactly the records of that category, in
      array order: any ordered listing of exactly those records is the
      filter's result. */
  lemma FilterExact(books: seq<Record>, c: Category, listing: seq<Record>)
    requires Increasing(books) && Increasing(listing)
    requires forall x :: x in listing <==> x in books && x.category == c
    ensures listing == Filter(books, c)
  {
    FilterIncreasing(books, c);
    SameIncreasing(listing, Filter(books, c));
  }

  /** An add never reissues a retired id: the new record carries `nextId`,
      which is above every id issued before. */
  lemma AddKeepsRetired(st: Store, title: string, author: string, category: Category, id: int)
    requires Valid(st) && Retired(st, id) && Add(st, title, author, category).Ok?
    ensures Retired(Add(st, title, author, category).value, id)
  {
    var st' := Add(st, title, author, category).value;
    forall i | 0 <= i < |st'.books| ensures st'.books[i].id != id {
      if i < |st.books| {
        assert st'.books[i] == st.books[i];
      }
    }
  }

  /** A delete never brings a retired id back: the survivors are old
      records. */
  lemma DeleteKeepsRetired(st: Store, del: int, id: int)
    requires Valid(st) && Retired(st, id) && Delete(st, del).Ok?
    ensures Retired(Delete(st, del).value, id)
  {
    DeleteSurvivors(st, del);
    var st' := Delete(st, del).value;
    forall i | 0 <= i < |st'.books| ensures st'.books[i].id != id {
      assert st'.books[i] in st.books;
    }
  }

  /** An update never brings a retired id back: it keeps every id. */
  lemma UpdateKeepsRetired(st: Store, upd: int, e: Edit, id: int)
    requires Valid(st) && Retired(st, id) && Update(st, upd, e).Ok?
    ensures Retired(Update(st, upd, e).value, id)
  {
    UpdateRevisesOne(st, upd, e);
    var st' := Update(st, upd, e).value;
    forall i | 0 <= i < |st'.books| ensures st'.books[i].id != id {
      assert Ids(st'.books)[i] == Ids(st.books)[i];
    }
  }

  /** One add on a store with room: the ids grow by the old `nextId`. */
  lemma AddIds(st: Store, t: string, a: string, c: Category)
    requires |st.books| < MaxBooks
    ensures Add(st, t, a, c).Ok?
    ensures Ids(Add(st, t, a, c).value.books) == Ids(st.books) + [st.nextId]
    ensures Add(st, t, a, c).value.nextId == st.nextId + 1
  {
  }

  /** Five adds on the empty store issue ids 1 to 5 and fill it. */
  lemma FiveAdds(t: string, a: string, c: Category)
    ensures
      var s1 := Add(Initial, t, a, c).value;
      var s2 := Add(s1, t, a, c).value;
      var s3 := Add(s2, t, a, c).value;
      var s4 := Add(s3, t, a, c).value;
      var s5 := Add(s4, t, a, c).value;
      Ids(s5.books) == [1, 2, 3, 4, 5] && s5.nextId == 6
  {
    AddIds(Initial, t, a, c);
    var s1 := Add(Initial, t, a, c).value;
    AddIds(s1, t, a, c);
    var s2 := Add(s1, t, a, c).value;
    AddIds(s2, t, a, c);
    var s3 := Add(s2, t, a, c).value;
    AddIds(s3, t, a, c);
    var s4 := Add(s3, t, a, c).value;
    AddIds(s4, t, a, c);
  }

  /** On a full store holding ids 1 to 5, a sixth add is refused; after
      deleting id 3 the ids are 1, 2, 4, 5, the next add issues id 6 rather
      than 3, and the add after that is refused again. */
  lemma IdsNotReused(s5: Store, t: string, a: string, c: Category)
    requires Ids(s5.books) == [1, 2, 3, 4, 5] && s5.nextId == 6
    ensures Add(s5, t, a, c) == Err(StorageFull)
    ensures Delete(s5, 3).Ok?
    ensures Ids(Delete(s5, 3).value.books) == [1, 2, 4, 5]
    ensures Add(Delete(s5, 3).value, t, a, c).Ok?
    ensures Ids(Add(Delete(s5, 3).value, t, a, c).value.books) == [1, 2, 4, 5, 6]
    ensures Add(Add(Delete(s5, 3).value, t, a, c).value, t, a, c) == Err(StorageFull)
  {
    var ids := Ids(s5.books);
    assert |s5.books| == |ids| == 5;
    assert forall i :: 0 <= i < 5 ==> s5.books[i].id == ids[i] == i + 1;
    assert Increasing(s5.books);
    IndexOfUnique(s5.books, 3, 2);
    var s6 := Delete(s5, 3).value;
    assert s6.books == s5.books[..2] + s5.books[3..];
    assert |s6.books| == 4;
    assert forall i :: 0 <= i < 4 ==> Ids(s6.books)[i] == s6.books[i].id == [1, 2, 4, 5][i];
    AddIds(s6, t, a, c);
  }
}
