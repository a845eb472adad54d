/** Book records, the display unit createBookElement builds from one, and
    the expressions the script uses to read a unit's texts back into a record. */
module Books {
  import opened Builtins

  /** A book id as JavaScript holds it: the number Date.getTime() gave addBook, or
      the string read back from a unit's data-bookid attribute. */
  datatype Id = NumId(n: nat) | StrId(s: string)

  /** A year as JavaScript holds it: an integer, NaN (parseInt found no digit), or
      null (what JSON.stringify writes for NaN). */
  datatype Year = Int(n: int) | NaN | Null

  /** One element of the array stored under localStorage['books']. */
  datatype Book = Book(id: Id, title: string, author: string, year: Year, isComplete: bool)

  /** The texts of a rendered book unit (div[data-bookid]): its data-bookid
      attribute, its title heading, its author and year paragraphs and the label
      of its completion button. The delete and edit buttons carry fixed labels. */
  datatype BookItem = BookItem(bookId: string, title: string, authorText: string, yearText: string, toggleLabel: string)

  /** A child of a list container: a book unit, or a plain paragraph (the
      "not found" message of a search), which has no data-bookid. */
  datatype Child = Item(item: BookItem) | Paragraph(text: string)

  const AuthorPrefix: string := "Penulis: "
  const YearPrefix: string := "Tahun: "
  /** Label of the completion button of a unit rendered as complete */
  const MarkUnread: string := "Belum selesai dibaca"
  /** Label of the completion button of a unit rendered as incomplete */
  const MarkRead: string := "Selesai dibaca"
  const NotFoundText: string := "Tidak ada buku yang ditemukan."

  // ---------------------------------------------------------------------
  // Rendering (createBookElement)

  /** The attribute text setAttribute('data-bookid', id) stores. */
  function IdText(id: Id): string {
    match id
    case NumId(n) => NatText(n)
    case StrId(s) => s
  }

  /** The text of `${year}`. */
  function YearText(y: Year): string {
    match y
    case Int(n) => IntText(n)
    case NaN => "NaN"
    case Null => "null"
  }

  /** The completion button's label: the two labels are told apart, and each
      names the flag it was rendered from. */
  function ToggleLabel(isComplete: bool): (r: string)
    ensures r == MarkUnread <==> isComplete
    ensures r == MarkRead <==> !isComplete
  {
    if isComplete then MarkUnread else MarkRead
  }

  /** createBookElement(book), reduced to the texts the script reads back. */
  function Render(b: Book): BookItem {
    BookItem(IdText(b.id), b.title, AuthorPrefix + b.author, YearPrefix + YearText(b.year), ToggleLabel(b.isComplete))
  }

  // ---------------------------------------------------------------------
  // Reading a unit back

  /** The author: the author paragraph with its first "Penulis: " cut out. */
  function ReadAuthor(u: BookItem): string {
    RemoveFirst(u.authorText, AuthorPrefix)
  }

  /** parseInt(text, 10), NaN when no digit is found. */
  function ParseYear(s: string): Year {
    match ParseInt(s)
    case Some(n) => Int(n)
    case None => NaN
  }

  /** The year: parseInt of the year paragraph with its first "Tahun: " cut out. */
  function ReadYear(u: BookItem): Year {
    ParseYear(RemoveFirst(u.yearText, YearPrefix))
  }

  /** The flag saveBooks and editBook read: label === 'Selesai dibaca'. */
  predicate SavedFlag(u: BookItem) {
    u.toggleLabel == MarkRead
  }

  /** The flag toggleComplete reads as the unit's current one: label === 'Belum selesai dibaca'. */
  predicate CurrentFlag(u: BookItem) {
    u.toggleLabel == MarkUnread
  }

  /** The record saveBooks builds from a unit. */
  function Saved(u: BookItem): Book {
    Book(StrId(u.bookId), u.title, ReadAuthor(u), ReadYear(u), SavedFlag(u))
  }

  /** The record toggleComplete builds from a unit: its current flag negated. */
  function Toggled(u: BookItem): Book {
    Book(StrId(u.bookId), u.title, ReadAuthor(u), ReadYear(u), !CurrentFlag(u))
  }

  /** What reading a rendered year back gives: an integer comes back, NaN and null
      both read back as NaN. */
  function Reparsed(y: Year): Year {
    if y.Int? then y else NaN
  }

  /** Reading back a rendered unit gives back the book's fields: the title as it
      is, the author after cutting out "Penulis: ", the year after cutting out
      "Tahun: " and parsing; the id becomes its attribute text, and the two
      readings of the button label have opposite polarity (toggleComplete recovers
      the flag, saveBooks and editBook its negation). */
  lemma RenderReadBack(b: Book)
    ensures Render(b).title == b.title
    ensures ReadAuthor(Render(b)) == b.author
    ensures ReadYear(Render(b)) == Reparsed(b.year)
    ensures IdText(StrId(Render(b).bookId)) == IdText(b.id)
    ensures CurrentFlag(Render(b)) == b.isComplete
    ensures SavedFlag(Render(b)) == !b.isComplete
  {
    var u := Render(b);
    RemoveFirstOfPrefixed(AuthorPrefix, b.author);
    RemoveFirstOfPrefixed(YearPrefix, YearText(b.year));
    match b.year
    case Int(n) =>
      ParseIntOfText(n, []);
      assert IntText(n) + [] == IntText(n);
    case NaN =>
      ParseIntRejects("NaN");
    case Null =>
      ParseIntRejects("null");
  }

  /** The record a rendered book comes back as, from saveBooks and from
      toggleComplete alike: its id as attribute text, the same title and author,
      the year reparsed and the flag NEGATED. */
  function Resaved(b: Book): Book {
    Book(StrId(IdText(b.id)), b.title, b.author, Reparsed(b.year), !b.isComplete)
  }

  /** saveBooks reads a rendered book back with its flag inverted, and
      toggleComplete builds exactly the same record. */
  lemma SavedOfRendered(b: Book)
    ensures Saved(Render(b)) == Resaved(b)
    ensures Toggled(Render(b)) == Resaved(b)
  {
    RenderReadBack(b);
  }

  /** Whatever the unit, as long as its label is one of the two the script renders,
      the record toggleComplete builds equals the one saveBooks builds: the two
      readings of the label are negations of each other. */
  lemma ToggledIsSaved(u: BookItem)
    requires u.toggleLabel == MarkRead || u.toggleLabel == MarkUnread
    ensures Toggled(u) == Saved(u)
  {
  }

  /** Toggling a rendered unit re-renders it with the same id text, title and author
      text, the other label, and the year text of the reparsed year. */
  lemma ToggleRerender(b: Book)
    ensures Render(Toggled(Render(b))) == Render(b).(toggleLabel := ToggleLabel(!b.isComplete), yearText := YearPrefix + YearText(Reparsed(b.year)))
  {
    SavedOfRendered(b);
  }

  // ---------------------------------------------------------------------
  // JSON

  /** JSON.parse(JSON.stringify(b)): a NaN year becomes null, nothing else changes. */
  function ToJson(b: Book): (r: Book)
    ensures b.year == NaN ==> r.year == Null
    ensures b.year != NaN ==> r == b
    ensures r.(year := b.year) == b
  {
    if b.year == NaN then b.(year := Null) else b
  }

  /** No stored record has a NaN year: JSON cannot hold NaN. */
  predicate JsonClean(bs: seq<Book>) {
    forall i :: 0 <= i < |bs| ==> bs[i].year != NaN
  }

  /** What localStorage holds after setItem('books', JSON.stringify(bs)) is read
      back with JSON.parse: always clean, and a clean array comes back unchanged. */
  function Stored(bs: seq<Book>): (r: seq<Book>)
    ensures |r| == |bs| && JsonClean(r)
    ensures JsonClean(bs) ==> r == bs
    ensures forall i :: 0 <= i < |bs| ==> r[i].id == bs[i].id && r[i].isComplete == bs[i].isComplete
  {
    seq(|bs|, i requires 0 <= i < |bs| => ToJson(bs[i]))
  }

  lemma StoredAppend(a: seq<Book>, b: seq<Book>)
    ensures Stored(a + b) == Stored(a) + Stored(b)
  {
  }

  // ---------------------------------------------------------------------
  // Lists

  function HasFlag(c: bool): Book -> bool {
    (b: Book) => b.isComplete == c
  }

  /** The books loadBooks sends to the list for flag c, in stored order. */
  function Select(bs: seq<Book>, c: bool): seq<Book> {
    Filter(bs, HasFlag(c))
  }

  /** Each book becomes one unit, in order. */
  function RenderAll(bs: seq<Book>): (r: seq<Child>)
    ensures |r| == |bs|
    ensures forall i :: 0 <= i < |bs| ==> r[i] == Item(Render(bs[i]))
  {
    if bs == [] then [] else RenderAll(bs[..|bs| - 1]) + [Item(Render(bs[|bs| - 1]))]
  }

  lemma {:induction false} RenderAllAppend(a: seq<Book>, b: seq<Book>)
    ensures RenderAll(a + b) == RenderAll(a) + RenderAll(b)
  {
  }

  /** The children loadBooks appends to the list for flag c. */
  function Column(bs: seq<Book>, c: bool): seq<Child> {
    RenderAll(Select(bs, c))
  }

  /** Every book goes to exactly one of the two lists: they hold as many units as
      there are books, and a book is shown in the list for c exactly when its
      flag is c. */
  lemma {:induction false} ColumnsPartition(bs: seq<Book>, x: Book)
    ensures |Column(bs, false)| + |Column(bs, true)| == |bs|
    ensures x in Select(bs, true) <==> x in bs && x.isComplete
    ensures x in Select(bs, false) <==> x in bs && !x.isComplete
    ensures multiset(Select(bs, true)) + multiset(Select(bs, false)) == multiset(bs)
  {
    FilterMembers(bs, HasFlag(true), x);
    FilterMembers(bs, HasFlag(false), x);
    SelectCounts(bs);
    SelectSplits(bs);
  }

  lemma {:induction false} SelectCounts(bs: seq<Book>)
    ensures |Select(bs, false)| + |Select(bs, true)| == |bs|
  {
    if bs != [] {
      SelectCounts(bs[..|bs| - 1]);
    }
  }

  /** The two selections split the books between them, each book (and each copy
      of a duplicated record) going to exactly one of them. */
  lemma {:induction false} SelectSplits(bs: seq<Book>)
    ensures multiset(Select(bs, true)) + multiset(Select(bs, false)) == multiset(bs)
  {
    if bs != [] {
      var init, last := bs[..|bs| - 1], bs[|bs| - 1];
      SelectSplits(init);
      assert bs == init + [last];
      var t, f := Select(init, true), Select(init, false);
      if last.isComplete {
        assert Select(bs, true) == t + [last] && Select(bs, false) == f;
        assert multiset(t + [last]) == multiset(t) + multiset{last};
      } else {
        assert Select(bs, true) == t && Select(bs, false) == f + [last];
        assert multiset(f + [last]) == multiset(f) + multiset{last};
      }
    }
  }

  /** The list for c keeps the stored order: loading a store made of two parts
      shows the first part's books before the second part's. */
  lemma ColumnAppend(a: seq<Book>, b: seq<Book>, c: bool)
    ensures Column(a + b, c) == Column(a, c) + Column(b, c)
  {
    FilterAppend(a, b, HasFlag(c));
    RenderAllAppend(Select(a, c), Select(b, c));
  }

  /** Every unit of the list shows the button label of flag c. */
  predicate LabelledAs(ns: seq<Child>, c: bool) {
    forall i :: 0 <= i < |ns| && ns[i].Item? ==> ns[i].item.toggleLabel == ToggleLabel(c)
  }

  /** The units loadBooks puts in the list for c carry the label of c. */
  lemma ColumnLabelled(bs: seq<Book>, c: bool)
    ensures LabelledAs(Column(bs, c), c)
  {
    var s := Select(bs, c);
    assert forall i :: 0 <= i < |s| ==> HasFlag(c)(s[i]);
  }

  lemma LabelledAppend(a: seq<Child>, b: seq<Child>, c: bool)
    requires LabelledAs(a, c) && LabelledAs(b, c)
    ensures LabelledAs(a + b, c)
  {
    forall i | 0 <= i < |a + b| && (a + b)[i].Item?
      ensures (a + b)[i].item.toggleLabel == ToggleLabel(c)
    {
      if i >= |a| { assert (a + b)[i] == b[i - |a|]; }
    }
  }

  lemma LabelledRemove(s: seq<Child>, i: nat, c: bool)
    requires i < |s| && LabelledAs(s, c)
    ensures LabelledAs(s[..i] + s[i + 1..], c)
  {
    LabelledAppend(s[..i], s[i + 1..], c);
  }

  /** Appending one book to the store appends at most its unit to the list for c. */
  lemma ColumnSnoc(bs: seq<Book>, b: Book, c: bool)
    ensures Column(bs + [b], c) == Column(bs, c) + (if b.isComplete == c then [Item(Render(b))] else [])
  {
    ColumnAppend(bs, [b], c);
    assert [b][..0] == [];
  }

  /** One more book of the array shown: a list that held its prefix's column for c
      and grew by the unit of the next book (or by nothing) holds the next prefix's column. */
  lemma ColumnStep(pre: seq<Child>, bs: seq<Book>, i: nat, c: bool, shown: seq<Child>, grown: seq<Child>)
    requires i < |bs|
    requires shown == pre + Column(bs[..i], c)
    requires grown == shown + (if bs[i].isComplete == c then [Item(Render(bs[i]))] else [])
    ensures grown == pre + Column(bs[..i + 1], c)
  {
    assert bs[..i + 1] == bs[..i] + [bs[i]];
    ColumnSnoc(bs[..i], bs[i], c);
  }

  // ---------------------------------------------------------------------
  // Scanning the display (saveBooks)

  /** The records saveBooks collects from the children of one list, in display
      order; a paragraph has no data-bookid and is skipped. */
  function Scan(ns: seq<Child>): (r: seq<Book>)
    ensures |r| <= |ns|
    ensures (forall i :: 0 <= i < |ns| ==> ns[i].Item?) ==> |r| == |ns|
    ensures forall i :: 0 <= i < |r| ==> r[i].id.StrId?
  {
    if ns == [] then []
    else
      var last := ns[|ns| - 1];
      Scan(ns[..|ns| - 1]) + (if last.Item? then [Saved(last.item)] else [])
  }

  lemma {:induction false} ScanAppend(a: seq<Child>, b: seq<Child>)
    ensures Scan(a + b) == Scan(a) + Scan(b)
    decreases |b|
  {
    if b == [] {
      assert a + b == a;
    } else {
      assert (a + b)[..|a + b| - 1] == a + b[..|b| - 1];
      ScanAppend(a, b[..|b| - 1]);
    }
  }

  /** Saving a list of units labelled for c stores every one of them with the
      flag !c: saveBooks inverts the flag of every displayed book. */
  lemma {:induction false} ScanInverts(ns: seq<Child>, c: bool)
    requires LabelledAs(ns, c)
    ensures forall i :: 0 <= i < |Scan(ns)| ==> Scan(ns)[i].isComplete == !c
  {
    if ns != [] {
      ScanInverts(ns[..|ns| - 1], c);
    }
  }

  /** Saving the units of a non-empty array of books: the units of all but the
      last, then the record of the last. */
  lemma ScanRenderedSnoc(bs: seq<Book>)
    requires bs != []
    ensures Scan(RenderAll(bs)) == Scan(RenderAll(bs[..|bs| - 1])) + [Resaved(bs[|bs| - 1])]
  {
    var ns := RenderAll(bs);
    assert ns[..|ns| - 1] == RenderAll(bs[..|bs| - 1]);
    assert ns[|ns| - 1] == Item(Render(bs[|bs| - 1]));
    SavedOfRendered(bs[|bs| - 1]);
  }

  /** Saving units rendered from books stores, for each book in order, the
      record Resaved(b): one record per unit, fields read back, flag inverted. */
  lemma {:induction false} ScanRendered(bs: seq<Book>)
    ensures |Scan(RenderAll(bs))| == |bs|
    ensures forall i :: 0 <= i < |bs| ==> Scan(RenderAll(bs))[i] == Resaved(bs[i])
  {
    if bs != [] {
      var bs' := bs[..|bs| - 1];
      ScanRendered(bs');
      ScanRenderedSnoc(bs);
      var saved, prev := Scan(RenderAll(bs)), Scan(RenderAll(bs'));
      forall i | 0 <= i < |bs|
        ensures saved[i] == Resaved(bs[i])
      {
        if i < |bs'| {
          assert saved[i] == prev[i] == Resaved(bs'[i]);
          assert bs[i] == bs'[i];
        } else {
          assert i == |prev|;
          assert saved[i] == Resaved(bs[|bs| - 1]);
        }
      }
    }
  }

  /** Every record stored from a list labelled for c has the flag !c. */
  lemma StoredInverts(ns: seq<Child>, c: bool)
    requires LabelledAs(ns, c)
    ensures forall i :: 0 <= i < |Stored(Scan(ns))| ==> Stored(Scan(ns))[i].isComplete == !c
  {
    ScanInverts(ns, c);
  }

  /** Loading a store whose complete books all come before its incomplete ones
      shows the first part in the complete list and the second in the other. */
  lemma ColumnsOfSplit(a: seq<Book>, b: seq<Book>)
    requires forall i :: 0 <= i < |a| ==> a[i].isComplete
    requires forall i :: 0 <= i < |b| ==> !b[i].isComplete
    ensures Column(a + b, true) == RenderAll(a)
    ensures Column(a + b, false) == RenderAll(b)
  {
    FilterAppend(a, b, HasFlag(true));
    FilterAppend(a, b, HasFlag(false));
    FilterAll(a, HasFlag(true));
    FilterNone(b, HasFlag(true));
    FilterNone(a, HasFlag(false));
    FilterAll(b, HasFlag(false));
    assert a + [] == a && [] + b == b;
  }

  /** Saving the two lists and loading the store again SWAPS them: the complete
      list then shows the books of the former incomplete list, and the other way
      round, each in its former order. */
  lemma SaveReloadSwaps(incomplete: seq<Child>, complete: seq<Child>)
    requires LabelledAs(incomplete, false) && LabelledAs(complete, true)
    ensures Column(Stored(Scan(incomplete) + Scan(complete)), true) == RenderAll(Stored(Scan(incomplete)))
    ensures Column(Stored(Scan(incomplete) + Scan(complete)), false) == RenderAll(Stored(Scan(complete)))
  {
    StoredAppend(Scan(incomplete), Scan(complete));
    StoredInverts(incomplete, false);
    StoredInverts(complete, true);
    ColumnsOfSplit(Stored(Scan(incomplete)), Stored(Scan(complete)));
  }

  // ---------------------------------------------------------------------
  // Deleting and searching

  /** book.id !== bookId with JavaScript's strict inequality: a number is never
      identical to a string. */
  function Differs(bookId: string): Book -> bool {
    (b: Book) =>
      match b.id
      case NumId(_) => true
      case StrId(s) => s != bookId
  }

  /** books.filter(book => book.id !== bookId) */
  function Without(bs: seq<Book>, bookId: string): seq<Book> {
    Filter(bs, Differs(bookId))
  }

  /** The filter drops exactly the records whose id is the string bookId; a
      record with a numeric id always survives, even when its number is written
      bookId. */
  lemma WithoutMembers(bs: seq<Book>, bookId: string, x: Book)
    ensures x in Without(bs, bookId) <==> x in bs && x.id != StrId(bookId)
    ensures x in bs && x.id.NumId? ==> x in Without(bs, bookId)
  {
    FilterMembers(bs, Differs(bookId), x);
  }

  /** Filtering a clean store leaves it clean. */
  lemma WithoutClean(bs: seq<Book>, bookId: string)
    requires JsonClean(bs)
    ensures JsonClean(Without(bs, bookId))
  {
    var r := Without(bs, bookId);
    forall i | 0 <= i < |r| ensures r[i].year != NaN {
      FilterMembers(bs, Differs(bookId), r[i]);
    }
  }

  /** The filter keeps the order of the records. */
  lemma WithoutAppend(a: seq<Book>, b: seq<Book>, bookId: string)
    ensures Without(a + b, bookId) == Without(a, bookId) + Without(b, bookId)
  {
    FilterAppend(a, b, Differs(bookId));
  }

  /** book.title.toLowerCase().includes(query) */
  function TitleHas(query: string): Book -> bool {
    (b: Book) => Contains(Lower(b.title), query)
  }

  /** The stored books a search for the lower-cased query shows. */
  function Matching(bs: seq<Book>, query: string): seq<Book> {
    Filter(bs, TitleHas(query))
  }

  /** A search shows exactly the stored books whose lower-cased title contains
      the query somewhere. */
  lemma MatchingMembers(bs: seq<Book>, query: string, x: Book)
    ensures x in Matching(bs, query) <==> x in bs && exists i: nat :: OccursAt(Lower(x.title), query, i)
  {
    FilterMembers(bs, TitleHas(query), x);
    assert TitleHas(query)(x) == Contains(Lower(x.title), query);
    ContainsIffOccurs(Lower(x.title), query);
  }
}
