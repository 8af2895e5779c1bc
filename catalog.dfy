/**
 * The library catalog of biblioteca.py: the tables `autores` (id, unique
 * name) and `livros` (id, title, author id, optional year), the three
 * command handlers that change them, and the two queries that list them.
 * Each SQL statement is one atomic update of the maps; the `AUTOINCREMENT`
 * sequence of each table is a counter that only grows.
 */
module Catalog {
  import opened Optional
  import opened Text
  import opened Numerals
  import opened Form
  import opened Sorting
  import opened Keys

  /** A row of `livros` without its id: the title, the id of its author in `autores`, the year if any. */
  datatype Book = Book(title: string, author: int, year: Option<int>)

  /** No two authors share a name (the `UNIQUE` constraint on `autores.nome`). */
  ghost predicate UniqueNames(authors: map<int, string>) {
    forall a, b :: a in authors && b in authors && authors[a] == authors[b] ==> a == b
  }

  /**
   * Find-or-create of `name` took the author table from `a0` (next id `n0`)
   * to `a1` (next id `n1`): a name already present changes nothing, and a
   * new name is stored under the next id, which no author had.
   */
  ghost predicate AuthorResolved(a0: map<int, string>, n0: int, a1: map<int, string>, n1: int, name: string) {
    if name in a0.Values then a1 == a0 && n1 == n0
    else n0 !in a0 && a1 == a0[n0 := name] && n1 == n0 + 1
  }

  /**
   * Every id is below its table's counter, names and titles are non-empty
   * and stripped, author names are unique, and every book's author exists.
   */
  ghost predicate Consistent(authors: map<int, string>, books: map<int, Book>, nextAuthorId: int, nextBookId: int) {
    && 1 <= nextAuthorId && 1 <= nextBookId
    && (forall id :: id in authors ==> 1 <= id < nextAuthorId && Storable(authors[id]))
    && (forall id :: id in books ==> 1 <= id < nextBookId && Storable(books[id].title) && books[id].author in authors)
    && UniqueNames(authors)
  }

  /** Storing a book whose author exists under the next id keeps the tables consistent. */
  lemma InsertConsistent(authors: map<int, string>, books: map<int, Book>, na: int, nb: int, book: Book)
    requires Consistent(authors, books, na, nb)
    requires Storable(book.title) && book.author in authors
    ensures nb !in books
    ensures Consistent(authors, books[nb := book], na, nb + 1)
  {
  }

  /** Overwriting a stored book with one whose author exists keeps the tables consistent. */
  lemma ReplaceConsistent(authors: map<int, string>, books: map<int, Book>, na: int, nb: int, id: int, book: Book)
    requires Consistent(authors, books, na, nb) && id in books
    requires Storable(book.title) && book.author in authors
    ensures Consistent(authors, books[id := book], na, nb)
  {
  }

  /** Removing a book keeps the tables consistent. */
  lemma RemoveConsistent(authors: map<int, string>, books: map<int, Book>, na: int, nb: int, id: int)
    requires Consistent(authors, books, na, nb)
    ensures Consistent(authors, books - {id}, na, nb)
  {
  }

  /** Storing an author under the next id, when no author has that name yet, keeps the tables consistent. */
  lemma NewAuthorConsistent(authors: map<int, string>, books: map<int, Book>, na: int, nb: int, name: string)
    requires Consistent(authors, books, na, nb)
    requires Storable(name) && name !in authors.Values
    ensures na !in authors
    ensures Consistent(authors[na := name], books, na + 1, nb)
  {
    forall x | x in authors ensures authors[x] != name {
      assert authors[x] in authors.Values;
    }
  }

  class Catalog {
    /** `autores`: id to name. */
    var authors: map<int, string>
    /** `livros`: id to the rest of the row. */
    var books: map<int, Book>
    /** The id `AUTOINCREMENT` gives the next author. */
    var nextAuthorId: int
    /** The id `AUTOINCREMENT` gives the next book; ids of deleted books are never given again. */
    var nextBookId: int

    /** The tables and counters are consistent (see `Consistent`). */
    ghost predicate Valid()
      reads this
    {
      Consistent(authors, books, nextAuthorId, nextBookId)
    }

    /** Book `b` carries the accepted fields `f`, its author id naming `f.author`. */
    ghost predicate Holds(b: Book, f: Fields)
      reads this
      requires f.Accepted?
    {
      b.title == f.title && b.year == f.year && b.author in authors && authors[b.author] == f.author
    }

    /** Both tables freshly created and empty. */
    constructor ()
      ensures Valid()
      ensures authors == map[] && books == map[] && nextAuthorId == 1 && nextBookId == 1
    {
      authors := map[];
      books := map[];
      nextAuthorId := 1;
      nextBookId := 1;
    }

    /** `SELECT id FROM autores WHERE nome = ?`: the author with exactly this name, if any. */
    method FindAuthor(name: string) returns (found: Option<int>)
      ensures found.Some? ==> found.value in authors && authors[found.value] == name
      ensures found.None? ==> name !in authors.Values
    {
      if exists id | id in authors :: authors[id] == name {
        var id :| id in authors && authors[id] == name;
        found := Some(id);
      } else {
        found := None;
      }
    }

    /**
     * The lookup-before-insert shared by the add and update handlers: the
     * id of the author called `name`, inserting that author first if there
     * is none. The book table is not touched.
     */
    method FindOrCreateAuthor(name: string) returns (id: int)
      requires Valid() && Storable(name)
      modifies this
      ensures Valid()
      ensures books == old(books) && nextBookId == old(nextBookId)
      ensures AuthorResolved(old(authors), old(nextAuthorId), authors, nextAuthorId, name)
      ensures id in authors && authors[id] == name
    {
      var autor := FindAuthor(name);
      if autor.None? {
        NewAuthorConsistent(authors, books, nextAuthorId, nextBookId, name);
        id := nextAuthorId;
        authors := authors[id := name];
        nextAuthorId := nextAuthorId + 1;
      } else {
        id := autor.value;
      }
    }

    /**
     * `adicionar_livro`: refuse a form without title or author, or with a
     * year that is not an integer, before anything is written; otherwise
     * find or create the author and insert one book under a fresh id,
     * leaving every other book as it was.
     */
    method AddBook(titleField: string, authorField: string, yearField: string) returns (r: Outcome)
      requires Valid()
      modifies this
      ensures Valid()
      ensures CheckFields(titleField, authorField, yearField).Rejected? ==>
        r == CheckFields(titleField, authorField, yearField).outcome && unchanged(this)
      ensures CheckFields(titleField, authorField, yearField).Accepted? ==> r == Ok
      ensures r == Ok ==> Inserted(old(authors), old(nextAuthorId), old(books), old(nextBookId),
                                   CheckFields(titleField, authorField, yearField))
    {
      var f := CheckFields(titleField, authorField, yearField);
      if f.Rejected? {
        return f.outcome;
      }
      InsertBook(f);
      r := Ok;
    }

    /**
     * The writes of `adicionar_livro` once the form is accepted: find or
     * create the author, then `INSERT` the book, which takes the next id.
     */
    method InsertBook(f: Fields)
      requires Valid() && f.Accepted? && Storable(f.title) && Storable(f.author)
      modifies this
      ensures Valid()
      ensures Inserted(old(authors), old(nextAuthorId), old(books), old(nextBookId), f)
    {
      var autorId := FindOrCreateAuthor(f.author);
      var id := nextBookId;
      var book := Book(f.title, autorId, f.year);
      assert Holds(book, f);
      InsertConsistent(authors, books, nextAuthorId, nextBookId, book);
      books := books[id := book];
      nextBookId := nextBookId + 1;
    }

    /**
     * The tables, once the accepted form `f` has been added to the tables
     * `a0`, `b0` with counters `n0`, `m0`: the author resolved, and one new
     * book under the next id holding `f`, every other book as it was.
     */
    ghost predicate Inserted(a0: map<int, string>, n0: int, b0: map<int, Book>, m0: int, f: Fields)
      reads this
    {
      && f.Accepted?
      && AuthorResolved(a0, n0, authors, nextAuthorId, f.author)
      && m0 !in b0 && m0 in books
      && books == b0[m0 := books[m0]]
      && Holds(books[m0], f)
      && nextBookId == m0 + 1
    }

    /**
     * `atualizar_livro`: refuse an empty id field, or the same forms the add
     * handler refuses, before anything is written; otherwise find or create
     * the author (committed even if what follows fails), then replace the
     * book whose id the field holds, or report that there is none and leave
     * the book table as it was. The id field is not stripped, and text that
     * is not an integer literal matches no book.
     */
    method UpdateBook(idField: string, titleField: string, authorField: string, yearField: string) returns (r: Outcome)
      requires Valid()
      modifies this
      ensures Valid()
      ensures var f := CheckFields(titleField, authorField, yearField);
        if idField == [] then r == MissingField && unchanged(this)
        else if f.Rejected? then r == f.outcome && unchanged(this)
        else
          && AuthorResolved(old(authors), old(nextAuthorId), authors, nextAuthorId, f.author)
          && nextBookId == old(nextBookId)
          && var key := ParseInt(idField);
             if key.Some? && key.value in old(books) then
               && r == Ok && key.value in books
               && books == old(books)[key.value := books[key.value]]
               && Holds(books[key.value], f)
             else
               r == NotFound && books == old(books)
    {
      var f := CheckFields(titleField, authorField, yearField);
      if idField == [] {
        return MissingField;
      }
      if f.Rejected? {
        return f.outcome;
      }
      var key := ParseInt(idField);
      r := ReplaceBook(key, f);
    }

    /**
     * The writes of `atualizar_livro` once the form is accepted: find or
     * create the author, then `UPDATE` the book with id `key`, which changes
     * nothing when there is no such book.
     */
    method ReplaceBook(key: Option<int>, f: Fields) returns (r: Outcome)
      requires Valid() && f.Accepted? && Storable(f.title) && Storable(f.author)
      modifies this
      ensures Valid()
      ensures AuthorResolved(old(authors), old(nextAuthorId), authors, nextAuthorId, f.author)
      ensures nextBookId == old(nextBookId)
      ensures if key.Some? && key.value in old(books) then
          && r == Ok && key.value in books
          && books == old(books)[key.value := books[key.value]]
          && Holds(books[key.value], f)
        else
          r == NotFound && books == old(books)
    {
      var autorId := FindOrCreateAuthor(f.author);
      if key.Some? && key.value in books {
        var book := Book(f.title, autorId, f.year);
        ReplaceConsistent(authors, books, nextAuthorId, nextBookId, key.value, book);
        books := books[key.value := book];
        r := Ok;
      } else {
        r := NotFound;
      }
    }

    /**
     * `deletar_livro`: refuse an empty id field; do nothing unless the user
     * confirms; then remove exactly the book with that id, or report that
     * there is none. The author table is never touched, so an author left
     * without books stays.
     */
    method DeleteBook(idField: string, confirmed: bool) returns (r: Outcome)
      requires Valid()
      modifies this
      ensures Valid()
      ensures authors == old(authors) && nextAuthorId == old(nextAuthorId) && nextBookId == old(nextBookId)
      ensures var key := ParseInt(idField);
        if idField == [] then r == MissingField && books == old(books)
        else if !confirmed then r == Cancelled && books == old(books)
        else if key.Some? && key.value in old(books) then r == Ok && books == old(books) - {key.value}
        else r == NotFound && books == old(books)
    {
      if idField == [] {
        return MissingField;
      }
      if !confirmed {
        return Cancelled;
      }
      var key := ParseInt(idField);
      if key.Some? && key.value in books {
        RemoveConsistent(authors, books, nextAuthorId, nextBookId, key.value);
        books := books - {key.value};
        r := Ok;
      } else {
        r := NotFound;
      }
    }
  }

  /** Two find-or-creates of the same name add at most that one author between them. */
  lemma ResolvedTwice(a0: map<int, string>, n0: int, a1: map<int, string>, n1: int, a2: map<int, string>, n2: int, name: string)
    requires AuthorResolved(a0, n0, a1, n1, name) && AuthorResolved(a1, n1, a2, n2, name)
    ensures a2 == a1 && n2 == n1
    ensures a2.Keys - a0.Keys <= {n0} && |a2| <= |a0| + 1
    ensures name in a2.Values
  {
    if name !in a0.Values {
      assert a1[n0] == name;
    }
  }

  /** A row of the book list: `livros.id, livros.titulo, autores.nome, livros.ano`. */
  datatype BookRow = BookRow(id: int, title: string, author: string, year: Option<int>)

  /** A row of the author list: `id, nome`. */
  datatype AuthorRow = AuthorRow(id: int, name: string)

  function TitleOf(row: BookRow): string {
    row.title
  }

  function NameOf(row: AuthorRow): string {
    row.name
  }

  /** Book `id` joined to its author. */
  function RowOf(authors: map<int, string>, books: map<int, Book>, id: int): BookRow
    requires id in books && books[id].author in authors
  {
    BookRow(id, books[id].title, authors[books[id].author], books[id].year)
  }

  /** `row` is what the join produces for the book it names. */
  predicate Joins(authors: map<int, string>, books: map<int, Book>, row: BookRow) {
    row.id in books && books[row.id].author in authors && row == RowOf(authors, books, row.id)
  }

  /** `FROM livros JOIN autores ON livros.autor_id = autores.id` over the books `ids`, in that order. */
  function JoinRows(ids: seq<int>, authors: map<int, string>, books: map<int, Book>): (rows: seq<BookRow>)
    requires forall i :: 0 <= i < |ids| ==> ids[i] in books
    ensures forall row :: row in rows ==> Joins(authors, books, row) && row.id in ids
    ensures forall i :: 0 <= i < |ids| && books[ids[i]].author in authors ==> RowOf(authors, books, ids[i]) in rows
    ensures Distinct(ids) ==> Distinct(rows)
    ensures (forall i :: 0 <= i < |ids| ==> books[ids[i]].author in authors) ==> |rows| == |ids|
  {
    if ids == [] then []
    else
      var rest := JoinRows(ids[1..], authors, books);
      var id := ids[0];
      assert forall i :: 0 < i < |ids| ==> ids[i] == ids[1..][i - 1];
      if books[id].author in authors then
        assert Distinct(ids) ==> id !in ids[1..];
        [RowOf(authors, books, id)] + rest
      else
        rest
  }

  /**
   * `listar_livros`: every book whose author exists, joined to its author's
   * name, once, ordered by title ascending. With referential integrity that
   * is one row per book.
   */
  function BookList(authors: map<int, string>, books: map<int, Book>): (rows: seq<BookRow>)
    ensures SortedBy(rows, TitleOf)
    ensures forall i :: 0 <= i < |rows| ==> Joins(authors, books, rows[i])
    ensures forall id :: id in books && books[id].author in authors ==> RowOf(authors, books, id) in rows
    ensures forall i, j :: 0 <= i < j < |rows| ==> rows[i].id != rows[j].id
    ensures (forall id :: id in books ==> books[id].author in authors) ==> |rows| == |books|
  {
    var ids := Ascending(books.Keys);
    var joined := JoinRows(ids, authors, books);
    var rows := SortBy(joined, TitleOf);
    BooksListed(authors, books, joined, rows);
    BookIdsDistinct(authors, books, rows);
    rows
  }

  /** Reordering the joined rows keeps every joined book's row and no other. */
  lemma BooksListed(authors: map<int, string>, books: map<int, Book>, joined: seq<BookRow>, rows: seq<BookRow>)
    requires forall row :: row in joined ==> Joins(authors, books, row)
    requires forall id :: id in books && books[id].author in authors ==> RowOf(authors, books, id) in joined
    requires forall i :: 0 <= i < |rows| ==> rows[i] in joined
    requires forall i :: 0 <= i < |joined| ==> joined[i] in rows
    ensures forall i :: 0 <= i < |rows| ==> Joins(authors, books, rows[i])
    ensures forall id :: id in books && books[id].author in authors ==> RowOf(authors, books, id) in rows
  {
    forall id | id in books && books[id].author in authors ensures RowOf(authors, books, id) in rows {
      var k :| 0 <= k < |joined| && joined[k] == RowOf(authors, books, id);
    }
  }

  /** Distinct joined rows, each the row of the book it names, name distinct books. */
  lemma BookIdsDistinct(authors: map<int, string>, books: map<int, Book>, rows: seq<BookRow>)
    requires forall i :: 0 <= i < |rows| ==> Joins(authors, books, rows[i])
    requires Distinct(rows)
    ensures forall i, j :: 0 <= i < j < |rows| ==> rows[i].id != rows[j].id
  {
  }

  /** With referential integrity the book list has one row per book. */
  lemma ListedLength(authors: map<int, string>, books: map<int, Book>)
    requires forall k :: k in books ==> books[k].author in authors
    ensures |BookList(authors, books)| == |books|
  {
  }

  /** A book whose author exists is listed. */
  lemma ListedRow(authors: map<int, string>, books: map<int, Book>, id: int)
    requires id in books && books[id].author in authors
    ensures RowOf(authors, books, id) in BookList(authors, books)
  {
  }

  /** Every listed row is the joined row of a stored book. */
  lemma ListedJoins(authors: map<int, string>, books: map<int, Book>, row: BookRow)
    requires row in BookList(authors, books)
    ensures Joins(authors, books, row)
  {
    var rows := BookList(authors, books);
    var i :| 0 <= i < |rows| && rows[i] == row;
  }

  /**
   * Adding book `id` (whose author is among `a1`) to a table whose books
   * all have their author, while the author table only grows: the list
   * gains exactly one row, the new book's (`KeptListed` shows every other
   * row stays).
   */
  lemma AddListed(a0: map<int, string>, b0: map<int, Book>, a1: map<int, string>, id: int, book: Book)
    requires forall k :: k in b0 ==> b0[k].author in a0
    requires forall k :: k in a0 ==> k in a1 && a1[k] == a0[k]
    requires id !in b0 && book.author in a1
    ensures |BookList(a1, b0[id := book])| == |BookList(a0, b0)| + 1
    ensures BookRow(id, book.title, a1[book.author], book.year) in BookList(a1, b0[id := book])
  {
    var b1 := b0[id := book];
    assert |b1| == |b0| + 1;
    assert forall k :: k in b1 ==> b1[k].author in a1;
    ListedLength(a0, b0);
    ListedLength(a1, b1);
    ListedRow(a1, b1, id);
  }

  /** Rows of books that a change of the tables left alone, with their authors, stay listed. */
  lemma KeptListed(a0: map<int, string>, b0: map<int, Book>, a1: map<int, string>, b1: map<int, Book>)
    requires forall k :: k in a0 ==> k in a1 && a1[k] == a0[k]
    requires forall k :: k in b0 ==> k in b1 && b1[k] == b0[k]
    ensures forall row :: row in BookList(a0, b0) ==> row in BookList(a1, b1)
  {
    forall row | row in BookList(a0, b0) ensures row in BookList(a1, b1) {
      ListedJoins(a0, b0, row);
      assert RowOf(a1, b1, row.id) == row;
      ListedRow(a1, b1, row.id);
    }
  }

  /**
   * Removing book `id` from a table whose books all have their author: the
   * list loses exactly that book's row and keeps every other.
   */
  lemma RemoveListed(authors: map<int, string>, b0: map<int, Book>, id: int)
    requires forall k :: k in b0 ==> b0[k].author in authors
    requires id in b0
    ensures |BookList(authors, b0 - {id})| == |BookList(authors, b0)| - 1
    ensures forall row :: row in BookList(authors, b0 - {id}) ==> row.id != id
    ensures forall row :: row in BookList(authors, b0) && row.id != id ==> row in BookList(authors, b0 - {id})
  {
    var b1 := b0 - {id};
    assert b0.Keys == b1.Keys + {id};
    assert |b1| == |b0| - 1;
    ListedLength(authors, b0);
    ListedLength(authors, b1);
    forall row | row in BookList(authors, b1) ensures row.id != id {
      ListedJoins(authors, b1, row);
    }
    forall row | row in BookList(authors, b0) && row.id != id ensures row in BookList(authors, b1) {
      ListedJoins(authors, b0, row);
      assert RowOf(authors, b1, row.id) == row;
      ListedRow(authors, b1, row.id);
    }
  }

  /** `row` is the row of the author it names. */
  predicate Names(authors: map<int, string>, row: AuthorRow) {
    row.id in authors && row == AuthorRow(row.id, authors[row.id])
  }

  /** `SELECT id, nome FROM autores` over the authors `ids`, in that order. */
  function AuthorRows(ids: seq<int>, authors: map<int, string>): (rows: seq<AuthorRow>)
    requires forall i :: 0 <= i < |ids| ==> ids[i] in authors
    ensures |rows| == |ids|
    ensures forall row :: row in rows ==> Names(authors, row) && row.id in ids
    ensures forall i :: 0 <= i < |ids| ==> AuthorRow(ids[i], authors[ids[i]]) in rows
    ensures Distinct(ids) ==> Distinct(rows)
  {
    if ids == [] then []
    else
      var rest := AuthorRows(ids[1..], authors);
      assert forall i :: 0 < i < |ids| ==> ids[i] == ids[1..][i - 1];
      assert Distinct(ids) ==> ids[0] !in ids[1..];
      [AuthorRow(ids[0], authors[ids[0]])] + rest
  }

  /** `SELECT id, nome FROM autores ORDER BY nome`: every author once, ordered by name ascending. */
  function AuthorList(authors: map<int, string>): (rows: seq<AuthorRow>)
    ensures SortedBy(rows, NameOf)
    ensures forall i :: 0 <= i < |rows| ==> Names(authors, rows[i])
    ensures forall id :: id in authors ==> AuthorRow(id, authors[id]) in rows
    ensures forall i, j :: 0 <= i < j < |rows| ==> rows[i].id != rows[j].id
    ensures |rows| == |authors|
  {
    var ids := Ascending(authors.Keys);
    var unsorted := AuthorRows(ids, authors);
    var rows := SortBy(unsorted, NameOf);
    AuthorsListed(authors, unsorted, rows);
    AuthorIdsDistinct(authors, rows);
    rows
  }

  /** Reordering the rows of every author keeps every author's row and no other. */
  lemma AuthorsListed(authors: map<int, string>, unsorted: seq<AuthorRow>, rows: seq<AuthorRow>)
    requires forall row :: row in unsorted ==> Names(authors, row)
    requires forall id :: id in authors ==> AuthorRow(id, authors[id]) in unsorted
    requires forall i :: 0 <= i < |rows| ==> rows[i] in unsorted
    requires forall i :: 0 <= i < |unsorted| ==> unsorted[i] in rows
    ensures forall i :: 0 <= i < |rows| ==> Names(authors, rows[i])
    ensures forall id :: id in authors ==> AuthorRow(id, authors[id]) in rows
  {
    forall id | id in authors ensures AuthorRow(id, authors[id]) in rows {
      var k :| 0 <= k < |unsorted| && unsorted[k] == AuthorRow(id, authors[id]);
    }
  }

  /** Distinct author rows, each the row of the author it names, name distinct authors. */
  lemma AuthorIdsDistinct(authors: map<int, string>, rows: seq<AuthorRow>)
    requires forall i :: 0 <= i < |rows| ==> Names(authors, rows[i])
    requires Distinct(rows)
    ensures forall i, j :: 0 <= i < j < |rows| ==> rows[i].id != rows[j].id
  {
  }

  /** Under the unique-name constraint no name appears twice in the author list. */
  lemma AuthorListNamesDistinct(authors: map<int, string>)
    requires UniqueNames(authors)
    ensures var rows := AuthorList(authors);
      forall i, j :: 0 <= i < j < |rows| ==> rows[i].name != rows[j].name
  {
  }
}
