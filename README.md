# Library catalog — a Dafny model of `biblioteca.py`

`biblioteca.py` is a single-window desktop catalog of books and their
authors. It keeps two tables in a local database:
- `autores`, with an id and a unique name;
- `livros`, with an id, a title, an author id and an optional year.

Three buttons run the handlers that change the tables:
- `adicionar_livro` adds a book;
- `atualizar_livro` updates a book;
- `deletar_livro` deletes a book.

Two queries fill the book list and the author suggestions.

This project models that core in Dafny:

- `Text` holds Python's `str.strip()`, with the full `str.isspace()` set. It also holds the order SQLite's default BINARY collation puts on text. That order is lexicographic by code point, with a proper prefix first. The module proves this order is a total order.
- `Numerals` holds the part of `int()` the year field relies on: an optional sign followed by ASCII digits. It also holds the decimal rendering of an integer that the list shows. The two round-trip.
- `Form` holds the validation the add and update handlers share, in the handlers' order:
  - the stripped title and author name must be non-empty;
  - then the stripped year must be empty or an integer.
- `Sorting` and `Keys` are the machinery behind `ORDER BY`. `Sorting` is an insertion sort proved sorted and a permutation. `Keys` lists a set of ids in ascending order.
- `Catalog` is the class `Catalog`:
  - The author map, the book map and one `AUTOINCREMENT` counter per table are fields.
  - Each handler is a method that takes the raw form strings and returns what its message box would say: `Ok`, `MissingField`, `BadYear`, `NotFound` or `Cancelled`.
  - The invariant `Consistent` says that ids are below their counters, names and titles are stored stripped and non-empty, author names are unique, and every book's author exists. Every handler keeps it.
  - The two listing queries are pure functions over the maps.
- `Scenarios` holds runs on a fresh catalog for any title, author and year:
  - add;
  - two books by the same author;
  - an update of a missing book;
  - re-saving a selected row;
  - deleting the last book of an author;
  - the refused forms.

  It also holds add-then-list and select-then-delete on any consistent catalog, and concrete year fields.

Each SQL statement is one atomic update of a map. A commit has no effect of its own, because nothing in the handlers can fail between a statement and its commit. The one ordering that matters is kept:
- In `atualizar_livro`, a new author is inserted and committed before the `UPDATE` is tried.
- So an update that finds no book still leaves the new author stored.

Two details of the handlers are kept as the code has them:
- A declined delete confirmation returns silently. It is reported here as `Cancelled`.
- The id field is used without `strip()`.

Selecting a row fills the form with the row's text as the list holds it. A book with no year is listed with the text `None`, so selecting it puts `None` in the year field, and saving that form is refused (see "## Findings"). Forms typed by hand leave the year field blank for no year.

## Model

| member | source | states |
|---|---|---|
| Text.Strip | biblioteca.py:44-46 | the stripped field is a slice of the input, everything outside it is whitespace, it neither starts nor ends with whitespace, and it is empty exactly when the field is all whitespace |
| Text.LeadCount | biblioteca.py:44 | the leading whitespace run: all whitespace, followed by a non-whitespace character or the end |
| Text.TrailCount | biblioteca.py:44 | the trailing whitespace run: all whitespace, preceded by a non-whitespace character or the start |
| Text.StripUnique | biblioteca.py:44-46 | strip is determined: any whitespace-surrounded slice without whitespace at its ends is the result |
| Text.StripPadded | biblioteca.py:44-46 | whitespace typed around a trimmed value is removed and the value kept |
| Text.StripTrimmed | biblioteca.py:110-112 | stripping a value with no whitespace at its ends changes nothing |
| Text.PrecedesReflexive | biblioteca.py:86 | every title sorts no later than itself |
| Text.PrecedesTotal | biblioteca.py:86 | any two texts are comparable by the collation |
| Text.PrecedesAntisymmetric | biblioteca.py:86 | two texts that each sort no later than the other are equal |
| Text.PrecedesTransitive | biblioteca.py:86 | the collation order is transitive |
| Numerals.ParseInt | biblioteca.py:53 | `int()` succeeds exactly on an optional sign followed by at least one digit; a `-` gives a value at most 0, otherwise at least 0 |
| Numerals.Digits | biblioteca.py:90 | the decimal rendering of a natural number is non-empty, all digits, and without a leading zero |
| Numerals.FormatInt | biblioteca.py:90 | the rendering of an integer is non-empty, starts with `-` or a digit and ends with a digit |
| Numerals.DigitsRoundTrip | biblioteca.py:90 | reading back the digits of a natural number gives the number |
| Numerals.FormatRoundTrip | biblioteca.py:102-105 | an id or year shown in the list and copied into the form parses back to the same integer |
| Numerals.DigitsCanonical | biblioteca.py:53 | a digit string without a leading zero is the rendering of its value |
| Numerals.DigitsPositive | biblioteca.py:53 | a digit string with a non-zero first digit has a positive value |
| Numerals.PlusSignIgnored | biblioteca.py:53 | a `+` in front of a digit string reads as the same integer as the digits alone |
| Numerals.LeadingZeroIgnored | biblioteca.py:53 | a `0` in front of a digit string reads as the same integer as the digits alone |
| Form.ParseYear | biblioteca.py:52-56 | a blank year field is no year; a stripped integer literal is that integer with no range check; anything else is refused |
| Form.CheckFields | biblioteca.py:44-56 | a blank title or author is refused as missing before the year is looked at; then a year that is not an integer is refused; an accepted form carries the stripped title and author (stored non-empty and trimmed) and the parsed year |
| Form.EnteredYear | biblioteca.py:52-56 | the year field typed for a year is blank exactly when there is no year |
| Form.YearText | biblioteca.py:90-105 | selecting a row fills the year field with `None` exactly for a book with no year, and with the year's literal otherwise |
| Form.YearRoundTrip | biblioteca.py:52-56 | a year typed as its literal or left blank, with any whitespace around it, parses to that year |
| Form.EnteredFieldsAccepted | biblioteca.py:44-56 | a stored title and author name with the year typed for it pass validation unchanged |
| Form.SelectedFieldsChecked | biblioteca.py:96-105 | the fields selecting a stored book fills in pass validation unchanged when the book has a year, and are refused as a bad year when it has none |
| Sorting.Insert | biblioteca.py:86 | putting a row into a sorted list keeps it sorted and adds exactly that row |
| Sorting.InsertionSort | biblioteca.py:86 | the result is sorted by the key and is a permutation of the input |
| Sorting.SortBy | biblioteca.py:86 | sorted, a permutation, same length, the same rows both ways, and no row repeated if none was |
| Sorting.DistinctPermutation | biblioteca.py:86 | reordering a list without repeats yields a list without repeats |
| Keys.Ascending | biblioteca.py:83-84 | a set of ids as a strictly ascending sequence holding exactly those ids |
| Catalog.InsertConsistent | biblioteca.py:69-70 | storing a book whose author exists, under the next id, keeps the tables consistent; the next id was free |
| Catalog.ReplaceConsistent | biblioteca.py:134-135 | replacing a stored book by one whose author exists keeps the tables consistent |
| Catalog.RemoveConsistent | biblioteca.py:154 | deleting a book keeps the tables consistent, even if its author is left without books |
| Catalog.NewAuthorConsistent | biblioteca.py:61-64 | storing a name that no author has under the next author id keeps the tables consistent and the names unique; the id was free |
| Catalog.Catalog.constructor | biblioteca.py:11-27 | the freshly created tables are empty, consistent, and both counters start at 1 |
| Catalog.Catalog.FindAuthor | biblioteca.py:59-60 | the exact-name lookup finds an author with that name, or reports that no author has it |
| Catalog.Catalog.FindOrCreateAuthor | biblioteca.py:58-66 | an existing name's id is reused with the author table unchanged; otherwise exactly one author with that name is added under the next id; books untouched |
| Catalog.Catalog.AddBook | biblioteca.py:42-75 | a refused form is reported with nothing changed; otherwise the author is resolved and exactly one book holding the stripped title, that author and the parsed year is added under a fresh id, every other book unchanged |
| Catalog.Catalog.InsertBook | biblioteca.py:58-71 | the writes of an accepted add: author resolved, one new book under the next id, the book counter advanced |
| Catalog.Catalog.UpdateBook | biblioteca.py:107-143 | an empty id or a refused form is reported with nothing changed; otherwise the author is resolved and committed, then the book with that id gets the new title, author and year with every other book unchanged, or, if there is none, `NotFound` with the books unchanged |
| Catalog.Catalog.ReplaceBook | biblioteca.py:124-139 | the writes of an accepted update: author resolved, then exactly the book with the given id replaced, or nothing more changed if there is none |
| Catalog.Catalog.DeleteBook | biblioteca.py:145-162 | an empty id is reported, a declined confirmation changes nothing, a confirmed delete removes exactly the book with that id or reports `NotFound`; authors and counters never change |
| Catalog.ResolvedTwice | biblioteca.py:59-66 | resolving the same name twice adds at most one author, and the second time changes nothing |
| Catalog.JoinRows | biblioteca.py:82-85 | the inner join yields exactly the rows of the given books whose author exists, each carrying its author's name; one per book when all have one |
| Catalog.BookList | biblioteca.py:82-87 | the book list is sorted by title, holds one joined row per book whose author exists and no other row, without repeated ids; with referential integrity, one row per book |
| Catalog.ListedLength | biblioteca.py:82-87 | with referential integrity the list has as many rows as there are books |
| Catalog.ListedRow | biblioteca.py:82-87 | every book whose author exists is listed with its author's name |
| Catalog.ListedJoins | biblioteca.py:82-87 | every listed row is the joined row of a stored book |
| Catalog.AddListed | biblioteca.py:69-71 | after an insert the list has exactly one more row, the new book's with its author's name |
| Catalog.KeptListed | biblioteca.py:82-87 | rows of books and authors that a change left alone stay listed |
| Catalog.RemoveListed | biblioteca.py:154 | after a delete the list has exactly one row fewer, none for the deleted id, and keeps every other row |
| Catalog.AuthorRows | biblioteca.py:35 | one row per given author id, holding that author's name |
| Catalog.AuthorList | biblioteca.py:35 | the author list is sorted by name and holds each author exactly once |
| Catalog.AuthorListNamesDistinct | biblioteca.py:14 | with unique names, no name appears twice among the author suggestions |
| Scenarios.AddToEmpty | biblioteca.py:42-75 | adding to the empty catalog succeeds and lists exactly book 1 with its author's name and year, and author 1 |
| Scenarios.SameAuthorTwice | biblioteca.py:59-66 | two books by one author: both added, two books listed, one author stored |
| Scenarios.UpdateMissingBook | biblioteca.py:124-137 | an update naming no book reports `NotFound` and leaves the book list as it was, yet a second author has been stored |
| Scenarios.ReselectAndSave | biblioteca.py:96-105 | saving the fields a selected row fills in leaves both lists as they were; it succeeds when the book has a year and is refused as a bad year when it has none |
| Scenarios.DeleteKeepsAuthor | biblioteca.py:152-162 | deleting the only book of an author, confirmed, empties the book list and keeps the author |
| Scenarios.Refusals | biblioteca.py:48-56 | a blank title, a non-integer year and an empty id are refused, a declined deletion is cancelled, and nothing is stored |
| Scenarios.AddThenList | biblioteca.py:69-74 | on any catalog an add lists one more row, the new one, and keeps every other row |
| Scenarios.DeleteSelected | biblioteca.py:152-161 | on any catalog deleting a listed row removes exactly that row and leaves the author list as it was |
| Scenarios.YearDigits | biblioteca.py:53 | the year field `1937` is the year 1937 |
| Scenarios.YearBlank | biblioteca.py:53 | a year field of spaces and a tab is no year |
| Scenarios.YearSplit | biblioteca.py:53-56 | a year field `19 37` is refused |

## Left out

- The tkinter window, widgets and layout are presentation only, so they are not part of this model. That includes filling and clearing the tree and the combobox, `selecionar_livro` and `limpar_campos`. The form fields are plain string parameters, and `Form.YearText` with `Numerals.FormatInt` stand for what selecting a row copies into the form: the `str()` text of each value, as the list holds it.
- The `readonly` state of the id entry (biblioteca.py:181) is not modelled. In Tk that state also blocks programmatic `insert`, so selecting a row may leave the id field empty. The handlers take the id field as a parameter instead.
- `messagebox` dialogs are not shown. Each handler returns the tag of the message it would show, and the `askyesno` answer is a boolean parameter.
- The SQLite connection, cursor, `commit` and `close` are not modelled, and neither are durability, crashes or disk errors. Each statement is one atomic change of a map.
- `ON DELETE CASCADE` is not modelled: no code path deletes an author, and foreign keys are off in SQLite without a pragma.
- `Numerals.ParseInt`: Python's `int()` also accepts underscores between digits (`1_999`) and non-ASCII decimal digits. These are not modelled; such fields are refused here. The whitespace `int()` would skip is already gone, because the year field is stripped first.
- `Form.ParseYear`: a year outside SQLite's 64-bit integer range makes the driver raise an error when the book statement runs. By then a new author has already been inserted and committed (biblioteca.py:62-63 and 128-129), so the program keeps that author without a book and shows no message. The model has unbounded integers and stores the book with such a year.
- `Catalog.Catalog.UpdateBook` and `Catalog.Catalog.DeleteBook`: the id text is matched to `livros.id` only when it is an integer literal. SQLite's type-affinity conversion of other texts is not modelled, such as surrounding spaces or `5.0`; here those match no book.
- `Catalog.BookList` and `Catalog.AuthorList` fix the order only up to equal titles or names. SQL leaves the order of such ties unspecified, so the model promises nothing about it either.
- The `AUTOINCREMENT` limit at the largest 64-bit row id is not modelled; the counters are unbounded.

## Findings

| source | as written | input that shows it | evidently intended | confidence | as-written member | corrected member |
|---|---|---|---|---|---|---|
| biblioteca.py:90-105 | the list stores each value as its `str()` text, so a NULL year comes back as `None` and the `is not None` test never fires; the year field gets `None` | add a book with a blank year, select it, click update | a blank year field, so the unchanged book saves | medium, not executed | Scenarios.ReselectAndSave | Form.EnteredFieldsAccepted |
