/** The bookshelf page: the two list containers, the stored array
    localStorage['books'], the book form with its onsubmit handler, and the
    handlers the script attaches to them. */
module App {
  import opened Builtins
  import opened Books

  /** The two list containers. */
  datatype ListId = IncompleteBookList | CompleteBookList

  /** The container a book with this flag is appended to. */
  function ListFor(isComplete: bool): ListId {
    if isComplete then CompleteBookList else IncompleteBookList
  }

  function Other(l: ListId): ListId {
    if l == CompleteBookList then IncompleteBookList else CompleteBookList
  }

  /** The values of the book form's four inputs (title, author, year, isComplete). */
  datatype Form = Form(title: string, author: string, year: string, isComplete: bool)

  /** The form after reset(). */
  const EmptyForm: Form := Form("", "", "", false)

  /** form.onsubmit: null, or the one-shot handler editBook installs, with what its
      closure captured: the unit's id, the filtered copy of the store, and the
      handler it replaced (which it puts back when it runs). */
  datatype Handler = NoHandler | EditHandler(bookId: string, books: seq<Book>, previous: Handler)

  predicate HandlerClean(h: Handler) {
    h.EditHandler? ==> JsonClean(h.books) && HandlerClean(h.previous)
  }

  /** What a click on the page hits: one of the three buttons of the unit at
      `index` of list `list`, or anything else. */
  datatype Target =
    | DeleteButton(list: ListId, index: nat)
    | EditButton(list: ListId, index: nat)
    | ToggleButton(list: ListId, index: nat)
    | Elsewhere

  /** addBook's check: the trimmed title and author are not empty and the year
      parses as an integer. */
  predicate AddAccepts(f: Form) {
    Trim(f.title) != [] && Trim(f.author) != [] && ParseInt(f.year).Some?
  }

  /** The record addBook renders from an accepted form. */
  function NewBook(f: Form, id: nat): Book
    requires AddAccepts(f)
  {
    Book(NumId(id), Trim(f.title), Trim(f.author), Int(ParseInt(f.year).value), f.isComplete)
  }

  /** The record the edit handler builds from the form, without any check. */
  function EditedBook(f: Form, bookId: string): Book {
    Book(StrId(bookId), Trim(f.title), Trim(f.author), ParseYear(f.year), f.isComplete)
  }

  /** What a number input holds after `.value = year`: the decimal text of an
      integer; NaN is not a valid number and leaves the input empty. */
  function YearField(y: Year): string {
    if y.Int? then IntText(y.n) else ""
  }

  /** The form editBook fills in from a unit; the checkbox gets the flag read with
      label === 'Selesai dibaca'. */
  function EditForm(u: BookItem): Form {
    Form(u.title, ReadAuthor(u), YearField(ReadYear(u)), SavedFlag(u))
  }

  /** Reading the year input back: a year input filled from an integer parses
      back to that integer, one filled from NaN is empty and gives NaN. */
  lemma YearFieldReparsed(y: Year)
    ensures ParseInt(YearField(y)).Some? <==> y.Int?
    ensures ParseYear(YearField(y)) == Reparsed(y)
  {
    if y.Int? {
      ParseIntOfText(y.n, []);
      assert IntText(y.n) + [] == IntText(y.n);
    }
  }

  /** The form editBook fills in from any unit: addBook accepts it exactly when the
      unit's title and author are not blank and its year text parses. Accepted, it
      adds the unit's fields under the fresh numeric id with the flag saveBooks
      reads; the edit handler, reading the same form, builds the same fields under
      the unit's id. */
  lemma EditFormAccepted(u: BookItem, freshId: nat)
    ensures AddAccepts(EditForm(u)) <==> Trim(u.title) != [] && Trim(ReadAuthor(u)) != [] && ReadYear(u).Int?
    ensures AddAccepts(EditForm(u)) ==>
      NewBook(EditForm(u), freshId) == Book(NumId(freshId), Trim(u.title), Trim(ReadAuthor(u)), ReadYear(u), SavedFlag(u))
    ensures EditedBook(EditForm(u), u.bookId) == Book(StrId(u.bookId), Trim(u.title), Trim(ReadAuthor(u)), ReadYear(u), SavedFlag(u))
  {
    YearFieldReparsed(ReadYear(u));
  }

  /** After reset() the form is blank: addBook rejects it, and the edit handler
      reading it builds a record with empty title and author, a NaN year and the
      flag false. */
  lemma ResetFormRecord(bookId: string)
    ensures !AddAccepts(EmptyForm)
    ensures EditedBook(EmptyForm, bookId) == Book(StrId(bookId), "", "", NaN, false)
  {
    assert Trim("") == "";
  }

  /** A submit of the form editBook filled in from a rendered book, untouched:
      addBook accepts it exactly when the book's title and author are not blank and
      its year is an integer, and then adds a copy of the book under the fresh id
      with the completion flag FLIPPED. */
  lemma EditUnchangedAccepted(b: Book, freshId: nat)
    ensures AddAccepts(EditForm(Render(b))) <==> Trim(b.title) != [] && Trim(b.author) != [] && b.year.Int?
    ensures AddAccepts(EditForm(Render(b))) ==>
      NewBook(EditForm(Render(b)), freshId) == Book(NumId(freshId), Trim(b.title), Trim(b.author), b.year, !b.isComplete)
  {
    RenderReadBack(b);
    EditFormAccepted(Render(b), freshId);
  }

  /** When addBook rejects that untouched form (a blank title or author, or no
      integer year), the edit handler reads it as it is and builds the book under
      its id text, with title and author trimmed, the year reparsed, and the
      completion flag FLIPPED. */
  lemma EditUnchangedFlips(b: Book)
    requires !AddAccepts(EditForm(Render(b)))
    ensures EditedBook(EditForm(Render(b)), IdText(b.id))
         == Book(StrId(IdText(b.id)), Trim(b.title), Trim(b.author), Reparsed(b.year), !b.isComplete)
  {
    RenderReadBack(b);
    YearFieldReparsed(b.year);
  }

  /** The list s without its child at i (bookItem.remove()). */
  function Remove(s: seq<Child>, i: nat): seq<Child>
    requires i < |s|
  {
    s[..i] + s[i + 1..]
  }

  class Bookshelf {
    var incomplete: seq<Child>
    var complete: seq<Child>
    /** localStorage['books'], as JSON.parse gives it back */
    var store: seq<Book>
    var form: Form
    var onsubmit: Handler

    /** The store holds no NaN, every unit shows the label of the list it is in,
        and every pending edit handler captured a clean store. */
    ghost predicate Valid()
      reads this
    {
      JsonClean(store) && LabelledAs(incomplete, false) && LabelledAs(complete, true) && HandlerClean(onsubmit)
    }

    function Shown(l: ListId): seq<Child>
      reads this
    {
      if l == CompleteBookList then complete else incomplete
    }

    /** The records saveBooks collects: the incomplete list's units, then the
        complete list's, in document order. */
    function Displayed(): seq<Book>
      reads this
    {
      Scan(incomplete) + Scan(complete)
    }

    /** Whether a click on this target is on a button of an existing unit. */
    predicate Hits(t: Target)
      reads this
    {
      t.Elsewhere? || (t.index < |Shown(t.list)| && Shown(t.list)[t.index].Item?)
    }

    /** The page is loaded (DOMContentLoaded runs loadBooks) with `stored` in
        localStorage['books']. */
    constructor (stored: seq<Book>)
      requires JsonClean(stored)
      ensures Valid()
      ensures incomplete == Column(stored, false) && complete == Column(stored, true)
      ensures store == stored && form == EmptyForm && onsubmit == NoHandler
    {
      incomplete, complete, store, form, onsubmit := [], [], stored, EmptyForm, NoHandler;
      new;
      LoadBooks();
    }

    /** The user types into the book form. */
    method Fill(f: Form)
      modifies this
      ensures form == f
      ensures incomplete == old(incomplete) && complete == old(complete)
      ensures store == old(store) && onsubmit == old(onsubmit)
    {
      form := f;
    }

    /** bookList.appendChild(createBookElement(b)), bookList chosen by b.isComplete. */
    method Show(b: Book)
      requires Valid()
      modifies this
      ensures Valid()
      ensures incomplete == old(incomplete) + (if b.isComplete then [] else [Item(Render(b))])
      ensures complete == old(complete) + (if b.isComplete then [Item(Render(b))] else [])
      ensures store == old(store) && form == old(form) && onsubmit == old(onsubmit)
    {
      var n := Item(Render(b));
      if b.isComplete {
        LabelledAppend(complete, [n], true);
        complete := complete + [n];
      } else {
        LabelledAppend(incomplete, [n], false);
        incomplete := incomplete + [n];
      }
    }

    /** bookItem.remove() for the unit at i of list l. */
    method Detach(l: ListId, i: nat)
      requires Valid() && i < |Shown(l)|
      modifies this
      ensures Valid()
      ensures Shown(l) == Remove(old(Shown(l)), i) && Shown(Other(l)) == old(Shown(Other(l)))
      ensures store == old(store) && form == old(form) && onsubmit == old(onsubmit)
    {
      if l == CompleteBookList {
        LabelledRemove(complete, i, true);
        complete := Remove(complete, i);
      } else {
        LabelledRemove(incomplete, i, false);
        incomplete := Remove(incomplete, i);
      }
    }

    /** The "not found" paragraph, a copy into the incomplete list and the
        original into the complete list. */
    method ShowNotFound()
      requires Valid()
      modifies this
      ensures Valid()
      ensures incomplete == old(incomplete) + [Paragraph(NotFoundText)]
      ensures complete == old(complete) + [Paragraph(NotFoundText)]
      ensures store == old(store) && form == old(form) && onsubmit == old(onsubmit)
    {
      LabelledAppend(incomplete, [Paragraph(NotFoundText)], false);
      LabelledAppend(complete, [Paragraph(NotFoundText)], true);
      incomplete := incomplete + [Paragraph(NotFoundText)];
      complete := complete + [Paragraph(NotFoundText)];
    }

    /** clearBookLists: remove the first child of each list while there is one. */
    method ClearBookLists()
      requires Valid()
      modifies this
      ensures Valid()
      ensures incomplete == [] && complete == []
      ensures store == old(store) && form == old(form) && onsubmit == old(onsubmit)
    {
      while incomplete != []
        invariant complete == old(complete)
        invariant store == old(store) && form == old(form) && onsubmit == old(onsubmit)
        decreases |incomplete|
      {
        incomplete := incomplete[1..];
      }
      while complete != []
        invariant incomplete == []
        invariant store == old(store) && form == old(form) && onsubmit == old(onsubmit)
        decreases |complete|
      {
        complete := complete[1..];
      }
    }

    /** books.forEach: each book is rendered and appended to the list its flag
        names, in order. */
    method ShowAll(bs: seq<Book>)
      requires Valid()
      modifies this
      ensures Valid()
      ensures incomplete == old(incomplete) + Column(bs, false)
      ensures complete == old(complete) + Column(bs, true)
      ensures store == old(store) && form == old(form) && onsubmit == old(onsubmit)
    {
      var i := 0;
      while i < |bs|
        invariant 0 <= i <= |bs|
        invariant Valid()
        invariant incomplete == old(incomplete) + Column(bs[..i], false)
        invariant complete == old(complete) + Column(bs[..i], true)
        invariant store == old(store) && form == old(form) && onsubmit == old(onsubmit)
      {
        ghost var shown0, shown1 := incomplete, complete;
        Show(bs[i]);
        ColumnStep(old(incomplete), bs, i, false, shown0, incomplete);
        ColumnStep(old(complete), bs, i, true, shown1, complete);
        i := i + 1;
      }
      assert bs[..i] == bs;
    }

    /** loadBooks: clear both lists, then show every stored book in the list its
        stored flag names, in stored order. */
    method LoadBooks()
      requires Valid()
      modifies this
      ensures Valid()
      ensures incomplete == Column(store, false) && complete == Column(store, true)
      ensures store == old(store) && form == old(form) && onsubmit == old(onsubmit)
    {
      var books := store;
      ClearBookLists();
      ShowAll(books);
    }

    /** saveBooks: read every unit of both lists back into a record and overwrite
        the store with them. Each stored flag is the negation of the list the
        unit is in. */
    method SaveBooks()
      requires Valid()
      modifies this
      ensures Valid()
      ensures store == Stored(Displayed())
      ensures forall i :: 0 <= i < |store| ==> store[i].isComplete == (i < |Scan(incomplete)|)
      ensures forall i :: 0 <= i < |store| ==> store[i].id.StrId?
      ensures incomplete == old(incomplete) && complete == old(complete)
      ensures form == old(form) && onsubmit == old(onsubmit)
    {
      var units := incomplete + complete;
      var books: seq<Book> := [];
      var i := 0;
      while i < |units|
        invariant 0 <= i <= |units|
        invariant books == Scan(units[..i])
      {
        assert units[..i + 1][..i] == units[..i];
        if units[i].Item? {
          books := books + [Saved(units[i].item)];
        }
        i := i + 1;
      }
      assert units[..i] == units;
      ScanAppend(incomplete, complete);
      ScanInverts(incomplete, false);
      ScanInverts(complete, true);
      store := Stored(books);
    }

    /** addBook: check the form; on success render a book with the fresh id into
        the list its flag names, reset the form and save. A rejected form (the
        alert) changes nothing. */
    method AddBook(freshId: nat) returns (accepted: bool)
      requires Valid()
      modifies this
      ensures Valid()
      ensures accepted == AddAccepts(old(form))
      ensures !accepted ==>
        && incomplete == old(incomplete) && complete == old(complete)
        && store == old(store) && form == old(form) && onsubmit == old(onsubmit)
      ensures accepted ==>
        var b := NewBook(old(form), freshId);
        && Shown(ListFor(b.isComplete)) == old(Shown(ListFor(b.isComplete))) + [Item(Render(b))]
        && Shown(Other(ListFor(b.isComplete))) == old(Shown(Other(ListFor(b.isComplete))))
        && store == Stored(Displayed())
        && form == EmptyForm && onsubmit == old(onsubmit)
    {
      var title := Trim(form.title);
      var author := Trim(form.author);
      var year := ParseInt(form.year);
      var isComplete := form.isComplete;
      if title == [] || author == [] || year.None? {
        return false;
      }
      Show(Book(NumId(freshId), title, author, Int(year.value), isComplete));
      form := EmptyForm;
      SaveBooks();
      accepted := true;
    }

    /** deleteBook: remove the unit, and write back the store keeping the records
        whose id is not identical (!==) to the unit's attribute string. */
    method DeleteBook(l: ListId, i: nat)
      requires Valid() && i < |Shown(l)| && Shown(l)[i].Item?
      modifies this
      ensures Valid()
      ensures Shown(l) == Remove(old(Shown(l)), i) && Shown(Other(l)) == old(Shown(Other(l)))
      ensures store == Without(old(store), old(Shown(l)[i].item.bookId))
      ensures form == old(form) && onsubmit == old(onsubmit)
    {
      var bookId := Shown(l)[i].item.bookId;
      Detach(l, i);
      var books := Without(store, bookId);
      WithoutClean(store, bookId);
      store := Stored(books);
    }

    /** editBook: fill the form from the unit, drop the unit's id from the store,
        remove the unit, and install the one-shot handler over the current one. */
    method EditBook(l: ListId, i: nat)
      requires Valid() && i < |Shown(l)| && Shown(l)[i].Item?
      modifies this
      ensures Valid()
      ensures
        var u := old(Shown(l)[i].item);
        && form == EditForm(u)
        && store == Without(old(store), u.bookId)
        && onsubmit == EditHandler(u.bookId, Without(old(store), u.bookId), old(onsubmit))
      ensures Shown(l) == Remove(old(Shown(l)), i) && Shown(Other(l)) == old(Shown(Other(l)))
      ensures form.isComplete == (l == IncompleteBookList)
    {
      var u := Shown(l)[i].item;
      var bookId := u.bookId;
      form := EditForm(u);
      var originalOnSubmit := onsubmit;
      var books := Without(store, bookId);
      WithoutClean(store, bookId);
      store := Stored(books);
      Detach(l, i);
      onsubmit := EditHandler(bookId, books, originalOnSubmit);
    }

    /** The handler editBook installed: build the record from the form under the
        captured id with no check, show it, store the captured copy plus it,
        reset the form and put the previous handler back. */
    method EditSubmit()
      requires Valid() && onsubmit.EditHandler?
      modifies this
      ensures Valid()
      ensures
        var h := old(onsubmit);
        var b := EditedBook(old(form), h.bookId);
        && Shown(ListFor(b.isComplete)) == old(Shown(ListFor(b.isComplete))) + [Item(Render(b))]
        && Shown(Other(ListFor(b.isComplete))) == old(Shown(Other(ListFor(b.isComplete))))
        && store == Stored(h.books + [b])
        && form == EmptyForm && onsubmit == h.previous
    {
      var h := onsubmit;
      var updated := EditedBook(form, h.bookId);
      Show(updated);
      store := Stored(h.books + [updated]);
      form := EmptyForm;
      onsubmit := h.previous;
    }

    /** toggleComplete: read the unit's flag from its label, remove the unit and
        show it again with the flag negated, which is the other list. */
    method ToggleComplete(l: ListId, i: nat)
      requires Valid() && i < |Shown(l)| && Shown(l)[i].Item?
      modifies this
      ensures Valid()
      ensures
        var b := Toggled(old(Shown(l)[i].item));
        && b.isComplete == (l == IncompleteBookList)
        && Shown(l) == Remove(old(Shown(l)), i)
        && Shown(Other(l)) == old(Shown(Other(l))) + [Item(Render(b))]
      ensures store == old(store) && form == old(form) && onsubmit == old(onsubmit)
    {
      var u := Shown(l)[i].item;
      var updated := Toggled(u);
      Detach(l, i);
      Show(updated);
    }

    /** The search form's submit handler: clear both lists; an empty query reloads
        the store, any other shows the stored books whose lower-cased title
        contains the lower-cased query, or a "not found" paragraph in each list
        when there is none. The store is never written. */
    method Search(query: string)
      requires Valid()
      modifies this
      ensures Valid()
      ensures store == old(store) && form == old(form) && onsubmit == old(onsubmit)
      ensures query == [] ==> incomplete == Column(store, false) && complete == Column(store, true)
      ensures query != [] && Matching(store, Lower(query)) != [] ==>
        && incomplete == Column(Matching(store, Lower(query)), false)
        && complete == Column(Matching(store, Lower(query)), true)
      ensures query != [] && Matching(store, Lower(query)) == [] ==>
        incomplete == [Paragraph(NotFoundText)] && complete == [Paragraph(NotFoundText)]
    {
      var searchQuery := Lower(query);
      var books := store;
      ClearBookLists();
      if searchQuery == [] {
        LoadBooks();
        return;
      }
      var filtered := Matching(books, searchQuery);
      if |filtered| > 0 {
        ShowAll(filtered);
      } else {
        ShowNotFound();
      }
    }

    /** A submit of the book form. The listener added at page load (addBook)
        runs first; then, when an edit is pending, the onsubmit handler runs and
        reads the form as addBook left it: reset if addBook accepted it. */
    method Submit(freshId: nat) returns (accepted: bool)
      requires Valid()
      modifies this
      ensures Valid()
      ensures accepted == AddAccepts(old(form))
      ensures old(onsubmit) == NoHandler ==>
        && onsubmit == NoHandler
        && (accepted ==>
              var a := NewBook(old(form), freshId);
              && Shown(ListFor(a.isComplete)) == old(Shown(ListFor(a.isComplete))) + [Item(Render(a))]
              && Shown(Other(ListFor(a.isComplete))) == old(Shown(Other(ListFor(a.isComplete))))
              && form == EmptyForm && store == Stored(Displayed()))
        && (!accepted ==> incomplete == old(incomplete) && complete == old(complete)
                          && store == old(store) && form == old(form))
      ensures old(onsubmit).EditHandler? && accepted ==>
        var h := old(onsubmit);
        var a := NewBook(old(form), freshId);
        var b := EditedBook(EmptyForm, h.bookId);
        && incomplete == old(incomplete) + (if a.isComplete then [] else [Item(Render(a))]) + [Item(Render(b))]
        && complete == old(complete) + (if a.isComplete then [Item(Render(a))] else [])
        && store == Stored(h.books + [b])
        && form == EmptyForm && onsubmit == h.previous
      ensures old(onsubmit).EditHandler? && !accepted ==>
        var h := old(onsubmit);
        var b := EditedBook(old(form), h.bookId);
        && Shown(ListFor(b.isComplete)) == old(Shown(ListFor(b.isComplete))) + [Item(Render(b))]
        && Shown(Other(ListFor(b.isComplete))) == old(Shown(Other(ListFor(b.isComplete))))
        && store == Stored(h.books + [b])
        && form == EmptyForm && onsubmit == h.previous
    {
      if onsubmit.EditHandler? {
        accepted := AddBook(freshId);
        EditSubmit();
      } else {
        accepted := AddBook(freshId);
      }
    }

    /** The page's click listener: a click on a unit's delete, edit or
        completion button runs that handler; every click, wherever it lands,
        then runs saveBooks, so the store always ends as the rescan of the
        display. */
    method Click(t: Target)
      requires Valid() && Hits(t)
      modifies this
      ensures Valid()
      ensures store == Stored(Displayed())
      ensures t.Elsewhere? ==>
        incomplete == old(incomplete) && complete == old(complete) && form == old(form) && onsubmit == old(onsubmit)
      ensures t.DeleteButton? ==>
        && Shown(t.list) == Remove(old(Shown(t.list)), t.index) && Shown(Other(t.list)) == old(Shown(Other(t.list)))
        && form == old(form) && onsubmit == old(onsubmit)
      ensures t.ToggleButton? ==>
        var b := Toggled(old(Shown(t.list)[t.index].item));
        && Shown(t.list) == Remove(old(Shown(t.list)), t.index)
        && Shown(Other(t.list)) == old(Shown(Other(t.list))) + [Item(Render(b))]
        && form == old(form) && onsubmit == old(onsubmit)
      ensures t.EditButton? ==>
        var u := old(Shown(t.list)[t.index].item);
        && Shown(t.list) == Remove(old(Shown(t.list)), t.index) && Shown(Other(t.list)) == old(Shown(Other(t.list)))
        && form == EditForm(u)
        && onsubmit == EditHandler(u.bookId, Without(old(store), u.bookId), old(onsubmit))
    {
      if t.DeleteButton? {
        DeleteBook(t.list, t.index);
      } else if t.EditButton? {
        EditBook(t.list, t.index);
      } else if t.ToggleButton? {
        ToggleComplete(t.list, t.index);
      }
      SaveBooks();
    }

    /** A click on the edit button of a unit, then a submit of the book form as
        editBook filled it in. When addBook accepts the form, it adds a copy of
        the unit under the fresh id with the flag saveBooks reads, which puts it
        in the OTHER list; it then resets the form, so the edit handler stores
        and shows an empty record under the unit's id. When addBook rejects it,
        only the edit handler's record appears, in the other list as well. */
    method EditThenSubmit(l: ListId, i: nat, freshId: nat) returns (accepted: bool)
      requires Valid() && i < |Shown(l)| && Shown(l)[i].Item?
      modifies this
      ensures Valid()
      ensures
        var u := old(Shown(l)[i].item);
        accepted == (Trim(u.title) != [] && Trim(ReadAuthor(u)) != [] && ReadYear(u).Int?)
      ensures accepted ==>
        var u := old(Shown(l)[i].item);
        var a := Book(NumId(freshId), Trim(u.title), Trim(ReadAuthor(u)), ReadYear(u), l == IncompleteBookList);
        var e := Book(StrId(u.bookId), "", "", NaN, false);
        && Shown(l) == Remove(old(Shown(l)), i) + (if l == IncompleteBookList then [Item(Render(e))] else [])
        && Shown(Other(l)) == old(Shown(Other(l))) + [Item(Render(a))] + (if l == IncompleteBookList then [] else [Item(Render(e))])
        && store == Stored(Without(old(store), u.bookId) + [e])
      ensures !accepted ==>
        var u := old(Shown(l)[i].item);
        var b := Book(StrId(u.bookId), Trim(u.title), Trim(ReadAuthor(u)), ReadYear(u), l == IncompleteBookList);
        && Shown(l) == Remove(old(Shown(l)), i)
        && Shown(Other(l)) == old(Shown(Other(l))) + [Item(Render(b))]
        && store == Stored(Without(old(store), u.bookId) + [b])
      ensures form == EmptyForm && onsubmit == old(onsubmit)
    {
      ghost var u := Shown(l)[i].item;
      assert SavedFlag(u) == (l == IncompleteBookList);
      EditFormAccepted(u, freshId);
      ResetFormRecord(u.bookId);
      Click(EditButton(l, i));
      accepted := Submit(freshId);
    }
  }
}
