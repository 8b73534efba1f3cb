/** The store as the program keeps it: an array of five nullable slots
    holding mutable `Book` objects, the number of live slots and the next id
    to issue.  Each operation is a method proved to follow the matching
    function of module Catalog, and the lemmas there say what those functions
    promise. */
module BookManagement {
  import opened Text
  import opened Catalog

  /** A book; its id is fixed when it is created, its other fields change
      through the setters. */
  class Book {
    const id: int
    var title: string
    var author: string
    var category: Category

    constructor (id: int, title: string, author: string, category: Category)
      ensures View() == Record(id, title, author, category)
    {
      this.id := id;
      this.title := title;
      this.author := author;
      this.category := category;
    }

    /** The book's fields as a value. */
    function View(): Record
      reads this
    {
      Record(id, title, author, category)
    }

    method SetTitle(title: string)
      modifies this`title
      ensures View() == old(View()).(title := title)
    {
      this.title := title;
    }

    method SetAuthor(author: string)
      modifies this`author
      ensures View() == old(View()).(author := author)
    {
      this.author := author;
    }

    method SetCategory(category: Category)
      modifies this`category
      ensures View() == old(View()).(category := category)
    {
      this.category := category;
    }
  }

  /** The discipline of the array's slots, stated on their contents: the
      first `count` slots hold books whose ids are positive, strictly
      increasing and below `nextId`, and the remaining slots are empty. */
  ghost predicate Slots(s: seq<Book?>, count: int, nextId: int) {
    && |s| == MaxBooks
    && 0 <= count <= MaxBooks
    && 1 <= nextId
    && (forall i :: 0 <= i < count ==> s[i] != null)
    && (forall i :: count <= i < MaxBooks ==> s[i] == null)
    && (forall i, j :: 0 <= i < j < count ==> s[i].id < s[j].id)
    && (forall i :: 0 <= i < count ==> 1 <= s[i].id < nextId)
  }

  /** Shifting the books after slot `k` one slot left and clearing the slot
      that falls out of use keeps the discipline, with one book fewer. */
  lemma ShiftLeftKeepsSlots(s: seq<Book?>, t: seq<Book?>, count: int, nextId: int, k: int)
    requires Slots(s, count, nextId) && 0 <= k < count && |t| == MaxBooks
    requires forall i :: 0 <= i < count - 1 ==> t[i] == s[if i < k then i else i + 1]
    requires forall i :: count - 1 <= i < MaxBooks ==> t[i] == null
    ensures Slots(t, count - 1, nextId)
  {
    forall i, j | 0 <= i < j < count - 1 ensures t[i].id < t[j].id {
      assert t[i] == s[if i < k then i else i + 1];
      assert t[j] == s[if j < k then j else j + 1];
    }
  }

  /** The setters `updateBook` applies to the book it found: a title or an
      author line that is blank keeps the old value, any other is trimmed and
      set, and the category is set when the answer confirms it. */
  method ApplyEdit(book: Book, e: Edit)
    modifies book
    ensures book.View() == Revise(old(book.View()), e)
  {
    if !IsBlank(e.title) {
      book.SetTitle(Trim(e.title));
    }
    if !IsBlank(e.author) {
      book.SetAuthor(Trim(e.author));
    }
    if Confirms(e.answer) {
      book.SetCategory(e.category);
    }
  }

  /** The shift loop of `deleteBook`: the elements after index `k` move one
      place left and the element at `c - 1`, which falls out of use, is
      cleared. */
  method ShiftLeft(a: array<Book?>, k: nat, c: nat)
    requires k < c <= a.Length
    modifies a
    ensures forall j :: 0 <= j < c - 1 ==> a[j] == old(a[if j < k then j else j + 1])
    ensures a[c - 1] == null
    ensures forall j :: c <= j < a.Length ==> a[j] == old(a[j])
  {
    var i := k;
    while i < c - 1
      invariant k <= i <= c - 1
      invariant forall j :: 0 <= j < i ==> a[j] == old(a[if j < k then j else j + 1])
      invariant forall j :: i <= j < a.Length ==> a[j] == old(a[j])
    {
      a[i] := a[i + 1];
      i := i + 1;
    }
    a[c - 1] := null;
  }

  class BookStore {
    const books: array<Book?>
    var count: int
    var nextId: int
    /** The objects this store is made of: itself, the array and every book
        it has held. */
    ghost var Repr: set<object>

    /** The object invariant: slots `[0, count)` hold books whose ids are
        positive, strictly increasing and below `nextId`; the other slots
        are empty. */
    ghost predicate Valid()
      reads this, Repr
      ensures Valid() ==> this in Repr
    {
      && this in Repr
      && books in Repr
      && Slots(books[..], count, nextId)
      && (forall i :: 0 <= i < count ==> books[i] in Repr)
    }

    /** The live books' fields, in array order. */
    ghost function Contents(): (s: seq<Record>)
      requires Valid()
      reads this, Repr
      ensures |s| == count
      ensures forall i :: 0 <= i < count ==> s[i] == books[i].View()
    {
      seq(count, i requires 0 <= i < count && Valid() reads this, Repr => books[i].View())
    }

    /** The store as a value. */
    ghost function Model(): Store
      requires Valid()
      reads this, Repr
    {
      Store(Contents(), nextId)
    }

    /** The object invariant gives Catalog's invariant of the value. */
    lemma ModelValid()
      requires Valid()
      ensures Catalog.Valid(Model())
    {
    }

    /** The state at start-up: an empty array, `count == 0`, `nextId == 1`. */
    constructor ()
      ensures Valid() && fresh(Repr)
      ensures Model() == Initial
    {
      books := new Book?[MaxBooks](_ => null);
      count := 0;
      nextId := 1;
      new;
      Repr := {this, books};
    }

    /** `addBook`, with the two lines already read and the category already
        looked up. */
    method AddBook(title: string, author: string, category: Category) returns (r: Result<Record>)
      requires Valid()
      modifies this, books
      ensures Valid() && fresh(Repr - old(Repr))
      ensures r.Ok? ==> Catalog.Add(old(Model()), title, author, category) == Ok(Model())
      ensures r.Ok? ==> r.value == Contents()[old(count)] && books[old(count)] in Repr - old(Repr)
      ensures r.Err? ==> Catalog.Add(old(Model()), title, author, category) == Err(r.failure)
      ensures r.Err? ==> Model() == old(Model()) && unchanged(this, books)
      ensures forall i :: 0 <= i < old(count) ==> books[i] == old(books[i])
    {
      if count >= MaxBooks {
        r := Err(StorageFull);
        return;
      }
      var book := new Book(nextId, Trim(title), Trim(author), category);
      books[count] := book;
      count := count + 1;
      nextId := nextId + 1;
      Repr := Repr + {book};
      r := Ok(book.View());
      Appended(book);
    }

    /** After the new book is put in the first free slot the store is still
        valid and its contents have gained that book's record at the end. */
    twostate lemma Appended(new book: Book)
      requires old(Valid()) && old(count) < MaxBooks && fresh(book) && book.id == old(nextId)
      requires count == old(count) + 1 && nextId == old(nextId) + 1 && Repr == old(Repr) + {book}
      requires books[old(count)] == book
      requires forall i :: 0 <= i < MaxBooks && i != old(count) ==> books[i] == old(books[i])
      requires forall i :: 0 <= i < old(count) ==> unchanged(old(books[i]))
      ensures Valid()
      ensures Contents() == old(Contents()) + [book.View()]
    {
      assert forall i :: 0 <= i < old(count) ==> books[i].View() == old(books[i].View());
    }

    /** `viewBooks`: every live book, in array order (none: "No books
        available."). */
    method ViewBooks() returns (listing: seq<Record>)
      requires Valid()
      ensures listing == Contents()
    {
      ghost var s := Contents();
      listing := [];
      for i := 0 to count
        invariant listing == s[..i]
      {
        listing := listing + [books[i].View()];
      }
    }

    /** `searchBooksByCategory`: the books of one category in array order,
        and whether there was any ("None found." when not). */
    method SearchBooksByCategory(category: Category) returns (matches: seq<Record>, found: bool)
      requires Valid()
      ensures matches == Filter(Contents(), category)
      ensures found <==> matches != []
    {
      ghost var s := Contents();
      matches := [];
      found := false;
      for i := 0 to count
        invariant matches == Filter(s[..i], category)
        invariant found <==> matches != []
      {
        assert s[..i + 1][..i] == s[..i];
        if books[i].category == category {
          matches := matches + [books[i].View()];
          found := true;
        }
      }
      assert s[..count] == s;
    }

    /** `findBookById`: the first live book with this id (the object itself),
        or NotFound. */
    method FindBookById(id: int) returns (r: Result<Book>)
      requires Valid()
      ensures match Catalog.IndexOf(Contents(), id)
        case Ok(k) => r.Ok? && r.value == books[k]
        case Err(f) => r == Err(f)
    {
      for i := 0 to count
        invariant forall j :: 0 <= j < i ==> books[j].id != id
      {
        if books[i].id == id {
          assert Contents()[i].id == id;
          return Ok(books[i]);
        }
      }
      return Err(NotFound(id));
    }

    /** `indexOf`: the first live slot holding this id, or NotFound. */
    method IndexOf(id: int) returns (r: Result<nat>)
      requires Valid()
      ensures r == Catalog.IndexOf(Contents(), id)
      ensures r.Ok? ==> r.value < count && books[r.value].id == id
    {
      for i := 0 to count
        invariant forall j :: 0 <= j < i ==> books[j].id != id
      {
        if books[i].id == id {
          assert Contents()[i].id == id;
          return Ok(i);
        }
      }
      return Err(NotFound(id));
    }

    /** `searchBookById`, with the id already read. */
    method SearchBookById(id: int) returns (r: Result<Record>)
      requires Valid()
      ensures r == Lookup(Model(), id)
    {
      if count == 0 {
        return Err(NoBooks);
      }
      var found := FindBookById(id);
      match found
      case Ok(book) => r := Ok(book.View());
      case Err(f) => r := Err(f);
    }

    /** `deleteBook`, with the id already read: the later books are shifted
        one slot left and the slot that falls out of use is cleared. */
    method DeleteBook(id: int) returns (r: Result<()>)
      requires Valid()
      modifies this, books
      ensures Valid() && Repr == old(Repr)
      ensures r.Ok? ==> Catalog.Delete(old(Model()), id) == Ok(Model())
      ensures r.Err? ==> Catalog.Delete(old(Model()), id) == Err(r.failure)
      ensures r.Err? ==> Model() == old(Model()) && unchanged(this, books)
    {
      if count == 0 {
        return Err(NoBooks);
      }
      var found := IndexOf(id);
      if found.Err? {
        return Err(found.failure);
      }
      var idx := found.value;
      ghost var st := Model();
      ShiftOut(idx);
      assert Model() == Store(st.books[..idx] + st.books[idx + 1..], st.nextId);
      r := Ok(());
    }

    /** Moves the books after slot `k` one slot left and clears the slot
        that falls out of use. */
    method ShiftOut(k: nat)
      requires Valid() && k < count
      modifies this, books
      ensures Valid() && Repr == old(Repr) && nextId == old(nextId)
      ensures count == old(count) - 1 && books[count] == null
      ensures forall i :: 0 <= i < count ==> books[i] == old(books[if i < k then i else i + 1])
      ensures Contents() == old(Contents())[..k] + old(Contents())[k + 1..]
    {
      ShiftLeft(books, k, count);
      count := count - 1;
      Shifted(k);
    }

    /** After the shift the store is still valid and its contents have lost
        their k-th record. */
    twostate lemma Shifted(k: nat)
      requires old(Valid()) && k < old(count)
      requires count == old(count) - 1 && nextId == old(nextId) && Repr == old(Repr)
      requires forall i :: 0 <= i < count ==> books[i] == old(books[if i < k then i else i + 1])
      requires forall i :: count <= i < MaxBooks ==> books[i] == null
      requires forall i :: 0 <= i < old(count) ==> unchanged(old(books[i]))
      ensures Valid()
      ensures Contents() == old(Contents())[..k] + old(Contents())[k + 1..]
    {
      ShiftLeftKeepsSlots(old(books[..]), books[..], old(count), nextId, k);
      ghost var s := old(Contents());
      assert forall i :: 0 <= i < count ==> books[i].View() == s[if i < k then i else i + 1];
    }

    /** `updateBook`, with the id and the answers already read: the setters
        change the found book in place. */
    method UpdateBook(id: int, e: Edit) returns (r: Result<Record>)
      requires Valid()
      modifies Repr
      ensures Valid() && Repr == old(Repr)
      ensures unchanged(this, books)
      ensures r.Ok? ==> Catalog.Update(old(Model()), id, e) == Ok(Model())
      ensures r.Ok? ==> r.value == Revise(FindById(old(Contents()), id).value, e)
      ensures r.Err? ==> Catalog.Update(old(Model()), id, e) == Err(r.failure)
      ensures r.Err? ==> Model() == old(Model())
    {
      if count == 0 {
        return Err(NoBooks);
      }
      var found := FindBookById(id);
      if found.Err? {
        return Err(found.failure);
      }
      var book := found.value;
      ghost var s := Contents();
      ghost var k := Catalog.IndexOf(s, id).value;
      assert book == books[k];
      DistinctBooks(k);
      ApplyEdit(book, e);
      r := Ok(book.View());
      OneBookChanged(k);
    }

    /** The live slots hold pairwise different objects. */
    lemma DistinctBooks(k: int)
      requires Valid() && 0 <= k < count
      ensures forall i :: 0 <= i < count && i != k ==> books[i] != books[k]
    {
      forall i | 0 <= i < count && i != k ensures books[i] != books[k] {
        if i < k { assert books[..][i].id < books[..][k].id; } else { assert books[..][k].id < books[..][i].id; }
      }
    }

    /** When only the book in slot `k` has changed, the store is still valid
        and only the k-th record of its contents differs. */
    twostate lemma OneBookChanged(k: int)
      requires old(Valid()) && 0 <= k < old(count)
      requires unchanged(this) && unchanged(books)
      requires forall i :: 0 <= i < old(count) && i != k ==> unchanged(old(books[i]))
      ensures Valid()
      ensures Contents() == old(Contents())[k := books[k].View()]
    {
      assert books[..] == old(books[..]);
    }
  }
}
