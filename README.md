# Bookshelf page model

A Dafny model of `main.js` from the bookshelf page of tifa_buku. The page works on three pieces of state:

- two containers of book units, `incompleteBookList` and `completeBookList`;
- one array of book records stored as JSON under `localStorage['books']`;
- the book form, together with the `onsubmit` handler that `editBook` installs on it.

It also has the handlers that move data between these:
- add, delete, edit, toggle, save, load, clear;
- the title search.

Layout:

- `Builtins.dfy` (module `Builtins`) holds the JavaScript built-ins the script leans on:
  - `String.prototype.trim` and its ECMAScript white space;
  - ASCII `toLowerCase`, `includes`, and `replace` with a string pattern;
  - the decimal text of an integer, `parseInt(s, 10)` and `Array.prototype.filter`.
- `Books.dfy` (module `Books`) holds the record and display data:
  - the book record and the texts of a rendered unit;
  - `createBookElement` as the pure function `Render`, plus the expressions that read a unit back (`Saved`, `Toggled`, `EditForm`);
  - the JSON round trip of the stored array;
  - the columns `loadBooks` builds, the rescan `saveBooks` performs, and the delete and search filters.
- `App.dfy` (module `App`) holds the class `Bookshelf`:
  - its fields are the two containers, the stored array, the form values and the pending `onsubmit` handler;
  - one method per handler, each specified by the functions of `Books`, with a `Submit` dispatch for the form and a `Click` dispatch for the page.

The model follows the code as written, including where it departs from what its comments and its design describe:

- **Inverted labels.** The completion button is labelled `Belum selesai dibaca` exactly when the book is complete (main.js:115).
  - `toggleComplete` reads that label with the same polarity (main.js:215).
  - `saveBooks` and `editBook` read the other label (main.js:240, main.js:155). So every save stores each displayed book with its flag negated (`SaveBooks`, `ScanInverts`).
  - A save followed by a reload swaps the two lists (`SaveReloadSwaps`).
  - Editing a book and submitting the form untouched never gives the book back as it was (`EditThenSubmit`).
    - If the title and author are not blank and the year is an integer, `addBook` accepts the prefilled form. It adds a copy under a fresh id with the flag flipped, so the copy lands in the other list (`EditUnchangedAccepted`).
    - `addBook` then resets the form, and the edit handler stores an empty record under the old id: empty title and author, a `null` year, not complete (`ResetFormRecord`).
    - Only when `addBook` rejects the form does the edit handler re-add the book itself, again with its flag flipped (`EditUnchangedFlips`).
- **Strict delete filter.** `deleteBook` and `editBook` filter with the strict comparison `book.id !== bookId`, where `bookId` is the attribute string. A record with a numeric id is therefore never removed by them (`WithoutMembers`).
  - The script itself never leaves a numeric id in the store: `addBook` ends with `saveBooks` (main.js:92), and `saveBooks` stores the attribute string (main.js:236; `SaveBooks`). A numeric id can only come from a store written some other way, which is the page's starting store (`Bookshelf.constructor`).
  - The click that ran them then runs `saveBooks`, which overwrites the store with a rescan of the display anyway (`Click`).
- **Years can be missing.** A year can be `NaN`: the edit handler does not validate the form. `JSON.stringify` turns it into `null`, so the year model is `Int | NaN | Null`.
- **Submit during an edit.** While an edit is pending, a submit of the book form runs two handlers:
  - first the `addBook` listener registered at page load;
  - then the `onsubmit` handler, which reads the form as `addBook` left it (`Submit`).
  - Each edit handler puts back the handler it replaced, so pending edits stack (`Handler`).

## Model

| member | source | states |
|---|---|---|
| Books.Render | main.js:95-135 | `createBookElement`, as the texts of the unit: no contract of its own; `RenderReadBack`, `SavedOfRendered`, `ToggleRerender` and `ScanRendered` are proved about it |
| Books.Saved | main.js:236-242 | the record `saveBooks` builds from a unit: no contract of its own; `SavedOfRendered`, `ToggledIsSaved` and `ScanRendered` are proved about it |
| Books.Toggled | main.js:214-222 | the record `toggleComplete` builds from a unit: no contract of its own; `SavedOfRendered`, `ToggledIsSaved` and `ToggleRerender` are proved about it |
| Books.RenderAll | main.js:255-259 | the units of an array of books in order: one unit per book, the i-th being the rendering of the i-th book; `RenderAllAppend` is proved about it |
| Books.Without | main.js:144 | `books.filter(book => book.id !== bookId)`: no contract of its own; `WithoutMembers`, `WithoutClean` and `WithoutAppend` are proved about it |
| Books.Matching | main.js:35 | the search filter: no contract of its own; `MatchingMembers` is proved about it |
| Books.ToggleLabel | main.js:115 | the completion label is `Belum selesai dibaca` exactly when the book is complete and `Selesai dibaca` exactly when it is not |
| Books.RenderReadBack | main.js:95-135 | reading a rendered unit back gives:<br>• the same title;<br>• the author, after the first `Penulis: ` is cut out;<br>• the year (reparsed), after `Tahun: ` is cut out;<br>• the id as its attribute text.<br>The label reading of `toggleComplete` gives the rendered flag; the one of `saveBooks` and `editBook` gives its negation |
| Books.SavedOfRendered | main.js:235-242 | the record `saveBooks` builds from a rendered book, and the record `toggleComplete` builds, are both that book with its id as text, title and author kept, year reparsed, and flag negated |
| Books.ToggledIsSaved | main.js:215-222 | for any unit with one of the two labels, the record `toggleComplete` builds equals the one `saveBooks` builds |
| Books.ToggleRerender | main.js:213-228 | re-rendering a toggled unit gives the same id text, title and author text, the other label, and the year text of the reparsed year |
| Books.ToJson | main.js:145 | `JSON.parse(JSON.stringify(b))` turns a NaN year into null and changes nothing else |
| Books.Stored | main.js:245 | the stored array has one record per written record, with the same ids and flags, and no NaN; a NaN-free array comes back unchanged |
| Books.StoredAppend | main.js:245 | storing a concatenation stores the concatenation of the stored parts |
| Books.RenderAllAppend | main.js:255-259 | rendering an array in order renders a concatenation as the concatenation of the renderings |
| Books.ColumnsPartition | main.js:255-259 | loading shows every stored book exactly once, in the complete list exactly when its flag is true. As multisets, the two selections add up to the store, so each copy of a duplicated record is shown once |
| Books.SelectSplits | main.js:255-259 | the two selections of the stored books add up, as multisets, to the stored books |
| Books.SelectCounts | main.js:255-259 | the two lists together hold as many books as were loaded |
| Books.ColumnAppend | main.js:255-259 | each list keeps the stored order |
| Books.ColumnLabelled | main.js:255-258 | every unit `loadBooks` puts in the list for a flag carries that flag's label |
| Books.LabelledAppend | main.js:89 | appending labelled units keeps a list labelled |
| Books.LabelledRemove | main.js:140 | removing a unit keeps a list labelled |
| Books.ColumnSnoc | main.js:255-259 | one more stored book adds its unit to the list its flag names, and nothing to the other |
| Books.ColumnStep | main.js:255-259 | one more step of the `forEach` turns the list for the previous prefix into the list for the next prefix |
| Books.Scan | main.js:235 | `saveBooks` collects at most one record per child, exactly one when every child is a book unit, and every collected id is a string |
| Books.ScanAppend | main.js:235 | the incomplete list's records come before the complete list's |
| Books.ScanInverts | main.js:240 | every record saved from a list labelled for a flag gets the negated flag |
| Books.ScanRenderedSnoc | main.js:235-242 | saving the units of an array saves all but the last, then the last unit's record |
| Books.ScanRendered | main.js:235-242 | saving units rendered from books gives, one for one and in order, each book with id as text and year reparsed, its flag negated |
| Books.StoredInverts | main.js:240-245 | every record stored from a list labelled for a flag has the negated flag |
| Books.ColumnsOfSplit | main.js:255-259 | loading a store made of complete books followed by incomplete ones shows the first part in the complete list and the second in the incomplete list |
| Books.SaveReloadSwaps | main.js:231-259 | saving both lists and then loading the store shows the former incomplete list's books in the complete list and the other way round, each list in its former order |
| Books.WithoutMembers | main.js:144 | the delete filter keeps exactly the records whose id is not the attribute string, so a record with a numeric id always survives |
| Books.WithoutClean | main.js:144 | filtering a NaN-free store leaves it NaN-free |
| Books.WithoutAppend | main.js:144 | the delete filter keeps the order of the records |
| Books.MatchingMembers | main.js:35 | a search shows exactly the stored books whose lower-cased title contains the lower-cased query at some position |
| Builtins.Trim | main.js:68 | `trim()`: no contract of its own; `TrimSpec` is proved about it |
| Builtins.ParseInt | main.js:70 | `parseInt(s, 10)`: no contract of its own; `ParseIntOfText` and `ParseIntRejects` are proved about it |
| Builtins.Contains | main.js:35 | `includes`: no contract of its own; `ContainsIffOccurs` is proved about it |
| Builtins.TrimStartSpec | main.js:68 | trimming the front removes only white space, and what remains is empty or starts with a non-space |
| Builtins.TrimEndSpec | main.js:68 | trimming the end removes only white space, and what remains is empty or ends with a non-space |
| Builtins.TrimSpec | main.js:68-69 | `trim()` is empty exactly when the text is all white space, and otherwise starts and ends with a non-space |
| Builtins.Lower | main.js:25 | lower-casing keeps the length and maps each character on its own |
| Builtins.LowerIdempotent | main.js:35 | lower-casing twice is lower-casing once |
| Builtins.OccursShift | main.js:35 | dropping the first character moves each occurrence one place to the left |
| Builtins.ContainsIffOccurs | main.js:35 | `includes` holds exactly when the query occurs at some position |
| Builtins.RemoveFirstSpec | main.js:238 | when the pattern occurs, `replace` cuts out exactly its first occurrence: the result is the text before the first position where it occurs, followed by the text after it. When the pattern does not occur, the text is returned unchanged |
| Builtins.RemoveFirst | main.js:238 | `s.replace(p, '')`: no contract of its own; `RemoveFirstSpec` and `RemoveFirstOfPrefixed` are proved about it |
| Builtins.RemoveFirstOfPrefixed | main.js:238 | cutting the prefix out of prefix + text gives back the text |
| Builtins.NatText | main.js:110 | the decimal text of a number is a non-empty digit run with no leading zero, and its value is that number |
| Builtins.LeadingDigits | main.js:239 | the longest run of digits at the front |
| Builtins.LeadingDigitsOfRun | main.js:239 | before a non-digit, the leading run is the whole digit run |
| Builtins.ParseIntOfText | main.js:239 | `parseInt` of an integer's decimal text, followed by a non-digit or nothing, gives that integer |
| Builtins.ParseIntOfNatText | main.js:239 | `parseInt` of a sign and a number's text gives the signed number |
| Builtins.ParseIntOfDigits | main.js:239 | `parseInt` of a sign and a digit run gives the signed value of the run |
| Builtins.ParseIntRejects | main.js:70 | `parseInt` of a text whose first character is not white space, a sign or a digit gives NaN |
| Builtins.Filter | main.js:144 | `filter` keeps at most as many elements, and each one it keeps passes the test |
| Builtins.FilterAppend | main.js:144 | `filter` of a concatenation is the concatenation of the filtered parts |
| Builtins.FilterMembers | main.js:35 | an element survives `filter` exactly when it is in the array and passes the test |
| Builtins.FilterAll | main.js:257 | when every element passes, `filter` gives the array back |
| Builtins.FilterNone | main.js:257 | when no element passes, `filter` gives the empty array |
| App.YearFieldReparsed | main.js:160 | the year input filled from a year parses exactly when the year is an integer, and parses back to the reparsed year |
| App.EditFormAccepted | main.js:152-161 | for the form `editBook` fills in from any unit:<br>• `addBook` accepts it exactly when the unit's trimmed title and author are not empty and its year text parses;<br>• when accepted, `addBook` builds the unit's fields under the fresh numeric id with the flag `saveBooks` reads;<br>• the edit handler builds the same fields under the unit's id |
| App.ResetFormRecord | main.js:178-195 | after the reset at main.js:91, `addBook` rejects the form, and the edit handler builds from it a record with empty title and author, a NaN year and the flag false |
| App.EditUnchangedAccepted | main.js:67-86 | `addBook` accepts the untouched form filled in from a rendered book exactly when its trimmed title and author are not empty and its year is an integer. It then builds a copy under the fresh id with the flag flipped |
| App.EditUnchangedFlips | main.js:152-195 | when `addBook` rejects the untouched form filled in from a rendered book, the edit handler builds that book under its id text: title and author trimmed, year reparsed, flag flipped |
| App.AddAccepts | main.js:81 | the check `addBook` makes: no contract of its own; `AddBook`, `EditFormAccepted` and `ResetFormRecord` state its outcome |
| App.NewBook | main.js:86 | the record `addBook` renders: no contract of its own; `AddBook`, `EditFormAccepted` and `EditUnchangedAccepted` state its fields |
| App.EditForm | main.js:152-161 | the form `editBook` fills in from a unit: no contract of its own; `EditBook`, `EditFormAccepted`, `EditUnchangedAccepted` and `EditUnchangedFlips` are proved about it |
| App.EditedBook | main.js:178-195 | the record the edit handler builds, without any check: no contract of its own; `EditSubmit`, `EditFormAccepted`, `ResetFormRecord` and `EditUnchangedFlips` are proved about it |
| App.Bookshelf.constructor | main.js:2-3 | page load with a NaN-free store shows the stored books, each in the list its flag names, in stored order |
| App.Bookshelf.Fill | main.js:158-161 | the form holds the typed values; nothing else changes |
| App.Bookshelf.Show | main.js:86-89 | appending a rendered book adds its unit to the end of the list its flag names, and leaves the other list and the store as they were |
| App.Bookshelf.Detach | main.js:140 | removing a unit takes exactly that child out of its list |
| App.Bookshelf.ShowNotFound | main.js:44-47 | each list gets one "not found" paragraph at its end |
| App.Bookshelf.ClearBookLists | main.js:53-64 | both lists end empty, and the store and form are untouched |
| App.Bookshelf.ShowAll | main.js:255-259 | each list grows by the rendered units of the books whose flag names it, in order |
| App.Bookshelf.LoadBooks | main.js:249-260 | the lists become exactly the stored books, split by flag, in stored order |
| App.Bookshelf.SaveBooks | main.js:231-246 | the store becomes the NaN-free rescan of both lists, incomplete first. Every stored record from the incomplete list is marked complete and every one from the complete list incomplete; every stored id is a string; the lists are untouched |
| App.Bookshelf.AddBook | main.js:67-93 | the form is accepted exactly when trimmed title and author are non-empty and the year parses.<br>A rejected form changes nothing.<br>An accepted one shows one unit with the fresh id in the list its flag names, resets the form and stores the rescan of the display |
| App.Bookshelf.DeleteBook | main.js:138-148 | the clicked unit alone leaves the display, and the store keeps exactly the records whose id is not identical to the unit's attribute string |
| App.Bookshelf.EditBook | main.js:150-211 | the form holds the unit's values, with the checkbox given the negation of the unit's flag.<br>The unit leaves the display and its id leaves the store.<br>The new handler captures the id, the filtered store and the handler it replaced |
| App.Bookshelf.EditSubmit | main.js:175-210 | the form is read under the captured id without validation, and the record is shown in the list its flag names.<br>The store becomes the captured copy plus the record; the form is reset and the previous handler is restored |
| App.Bookshelf.ToggleComplete | main.js:213-229 | the unit leaves its list, and its re-read record, whose flag now names the other list, is appended to that list; the store is untouched |
| App.Bookshelf.Search | main.js:22-49 | the store is never written.<br>An empty query reloads.<br>Otherwise the lists show exactly the stored books whose lower-cased title contains the lower-cased query, split by flag; when none match, each list shows one "not found" paragraph |
| App.Bookshelf.Submit | main.js:5-8 | a book form submit runs `addBook` and then any pending edit handler. It is accepted exactly when `addBook` accepts the form. The contract covers three cases:<br>• with no edit pending, an accepted form adds one unit to the list its flag names and stores the rescan, and a rejected one changes nothing;<br>• with an edit pending and the form accepted, the new book's unit is followed by the handler's empty record in the incomplete list, and the store is the handler's snapshot plus that record;<br>• with an edit pending and the form rejected, the handler's record from the form is shown and stored |
| App.Bookshelf.EditThenSubmit | main.js:150-211 | a click on a unit's edit button (main.js:10-20), then a submit of the untouched form (main.js:5-8, running `addBook` at main.js:67-93 first), with exact results on both paths:<br>• accepted exactly when the unit's title and author are not blank and its year parses;<br>• when accepted, a copy under the fresh id with the flag `saveBooks` reads goes to the other list, an empty record under the unit's id goes to the incomplete list, and the store is the filtered store plus that empty record;<br>• when rejected, the unit's record under its own id goes to the other list and is the one added to the filtered store |
| App.Bookshelf.Click | main.js:10-20 | a click on a unit's button runs that handler. Every click then runs `saveBooks`, so the store always ends as the rescan of the display |

## Left out

- The DOM API is not modelled as such. A unit is the record of its texts, a list is a sequence of children, and the two list containers are assumed to come in the document incomplete list first. `closest`, `matches` and the `data-testid` markers are reduced to the `Target` of a click.
- `alert` and `console.log` are left out: they only report.
- `new Date().getTime()` is the `freshId` parameter of `AddBook`, `Submit` and `EditThenSubmit`.
- `localStorage` with `JSON.stringify`/`JSON.parse` is the `store` field, read back through `Stored`. A corrupt or absent blob, and the `|| []` fallback on it, are not modelled: every method starts from a store the model holds.
- `toLowerCase` is modelled for ASCII letters only. Strings are sequences of Unicode scalar values, not of UTF-16 code units.
- Numbers are unbounded integers. JavaScript numbers are doubles, and two consequences are not modelled:
  - they lose precision beyond 2^53;
  - from 10^21 up, a year's text is in exponent notation, which `parseInt` then reads differently.
  - The number input's own sanitisation of its value is modelled only as "NaN leaves it empty" (`YearField`).
- The delete and edit buttons are part of every unit, but their fixed labels `Hapus Buku` and `Edit Buku` are not fields of `BookItem`: nothing reads them.
- Event dispatch is reduced to the two methods `Submit` and `Click`. Two cases are not modelled:
  - a click on the submit buttons of either form also reaches the page's click listener;
  - a submit of the search form does not run `Submit`.
- EmptyForm: the values `reset()` restores (empty texts, checkbox unchecked) are assumed; they are the form's default values, which are set in the page's HTML, and that HTML is not part of this model.
- EditForm: setting a text input's `.value` strips line breaks from the text; the model keeps the unit's title and author as they are.
- Books.Scan: a paragraph child (the search's "not found" message) has no `data-bookid` and is skipped, as the selector does. Other non-unit children cannot occur in the model.
