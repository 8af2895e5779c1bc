/**
 * Runs of the catalog on a freshly created database, for any title,
 * author name and year: what each handler reports and what the two lists
 * show afterwards follow from the handlers' contracts alone. A form is
 * typed with a blank year field for no year, except where a row of the
 * book list is selected, which fills the form with the row's own text.
 */
module Scenarios {
  import opened Optional
  import opened Text
  import opened Numerals
  import opened Form
  import opened Catalog

  /** The only author of a one-author table is its single list row. */
  lemma OneAuthorListed(authors: map<int, string>, id: int, name: string)
    requires authors == map[id := name]
    ensures AuthorList(authors) == [AuthorRow(id, name)]
  {
    var rows := AuthorList(authors);
    assert rows[0].id in authors;
  }

  /** The only book of a one-book table is its single list row. */
  lemma OneBookListed(authors: map<int, string>, books: map<int, Book>, id: int)
    requires books.Keys == {id} && books[id].author in authors
    ensures BookList(authors, books) == [RowOf(authors, books, id)]
  {
    var rows := BookList(authors, books);
    assert rows[0].id in books;
  }

  /**
   * A new catalog after adding one book: book 1, by author 1, both
   * counters at 2.
   */
  method OneBook(title: string, author: string, year: Option<int>) returns (c: Catalog, r: Outcome)
    requires Storable(title) && Storable(author)
    ensures fresh(c) && c.Valid() && r == Ok
    ensures c.authors == map[1 := author] && c.books == map[1 := Book(title, 1, year)]
    ensures c.nextAuthorId == 2 && c.nextBookId == 2
  {
    c := new Catalog();
    EnteredFieldsAccepted(title, author, year);
    r := c.AddBook(title, author, EnteredYear(year));
    assert c.authors == map[1 := author];
    assert c.books.Keys == {1};
  }

  /**
   * Adding a book to the empty catalog: it is stored as book 1 by author 1,
   * and the book list shows exactly its row.
   */
  method AddToEmpty(title: string, author: string, year: Option<int>) returns (r: Outcome, bookRows: seq<BookRow>, authorRows: seq<AuthorRow>)
    requires Storable(title) && Storable(author)
    ensures r == Ok
    ensures bookRows == [BookRow(1, title, author, year)]
    ensures authorRows == [AuthorRow(1, author)]
  {
    var c;
    c, r := OneBook(title, author, year);
    OneBookListed(c.authors, c.books, 1);
    OneAuthorListed(c.authors, 1, author);
    bookRows := BookList(c.authors, c.books);
    authorRows := AuthorList(c.authors);
  }

  /**
   * Two books by the same author: both adds succeed, the books get ids 1
   * and 2, and the author is stored once.
   */
  method SameAuthorTwice(title1: string, title2: string, author: string, year1: Option<int>, year2: Option<int>)
    returns (r1: Outcome, r2: Outcome, bookCount: nat, authorRows: seq<AuthorRow>)
    requires Storable(title1) && Storable(title2) && Storable(author)
    ensures r1 == Ok && r2 == Ok
    ensures bookCount == 2
    ensures authorRows == [AuthorRow(1, author)]
  {
    var c;
    c, r1 := OneBook(title1, author, year1);
    assert author in c.authors.Values by { assert c.authors[1] == author; }
    r2 := AddByKnownAuthor(c, title2, author, year2);
    assert c.books.Keys == {1, 2};
    assert |c.books| == |c.books.Keys| == 2;
    bookCount := |BookList(c.authors, c.books)|;
    OneAuthorListed(c.authors, 1, author);
    authorRows := AuthorList(c.authors);
  }

  /** Adding a book by an author already stored leaves the author table as it was. */
  method AddByKnownAuthor(c: Catalog, title: string, author: string, year: Option<int>) returns (r: Outcome)
    requires c.Valid() && Storable(title) && Storable(author) && author in c.authors.Values
    modifies c
    ensures c.Valid() && r == Ok
    ensures c.authors == old(c.authors) && c.nextAuthorId == old(c.nextAuthorId)
    ensures c.books.Keys == old(c.books.Keys) + {old(c.nextBookId)}
  {
    EnteredFieldsAccepted(title, author, year);
    r := c.AddBook(title, author, EnteredYear(year));
  }

  /**
   * Updating with an id that matches no book reports it and leaves the
   * books alone, yet the new author name typed into the form has been
   * stored under id 2.
   */
  method UpdateMissingBook(title: string, author: string, other: string, idField: string)
    returns (r: Outcome, bookRows: seq<BookRow>, authorCount: nat)
    requires Storable(title) && Storable(author) && Storable(other) && author != other
    requires idField != [] && ParseInt(idField) != Some(1)
    ensures r == NotFound
    ensures bookRows == [BookRow(1, title, author, None)]
    ensures authorCount == 2
  {
    var c, added := OneBook(title, author, None);
    r := UpdateNowhere(c, idField, title, other);
    assert c.books == map[1 := Book(title, 1, None)];
    assert c.authors == map[1 := author, 2 := other];
    assert |c.authors| == |c.authors.Keys| == |{1, 2}| == 2;
    OneBookListed(c.authors, c.books, 1);
    bookRows := BookList(c.authors, c.books);
    authorCount := |AuthorList(c.authors)|;
  }

  /** An update naming no stored book, with an author name not stored yet: only the author table grows. */
  method UpdateNowhere(c: Catalog, idField: string, title: string, other: string) returns (r: Outcome)
    requires c.Valid() && Storable(title) && Storable(other) && other !in c.authors.Values
    requires idField != [] && (ParseInt(idField).None? || ParseInt(idField).value !in c.books)
    modifies c
    ensures r == NotFound && c.books == old(c.books)
    ensures c.authors == old(c.authors)[old(c.nextAuthorId) := other]
  {
    EnteredFieldsAccepted(title, other, None);
    r := c.UpdateBook(idField, title, other, "");
  }

  /**
   * Selecting the only book and saving it unchanged changes neither list.
   * With a year the save succeeds, as the id, title, author and year shown
   * in its row are read back as they were; without one the year field holds
   * `None` and the save is refused.
   */
  method ReselectAndSave(title: string, author: string, year: Option<int>) returns (r: Outcome, bookRows: seq<BookRow>, authorRows: seq<AuthorRow>)
    requires Storable(title) && Storable(author)
    ensures r == (if year.Some? then Ok else BadYear)
    ensures bookRows == [BookRow(1, title, author, year)]
    ensures authorRows == [AuthorRow(1, author)]
  {
    var c, added := OneBook(title, author, year);
    OneBookListed(c.authors, c.books, 1);
    var row := BookList(c.authors, c.books)[0];
    r := SaveUnchanged(c, row);
    OneBookListed(c.authors, c.books, 1);
    OneAuthorListed(c.authors, 1, author);
    bookRows := BookList(c.authors, c.books);
    authorRows := AuthorList(c.authors);
  }

  /**
   * Saving the form that selecting `row`, the row of a stored book, fills in
   * changes no table; it succeeds exactly when the book has a year.
   */
  method SaveUnchanged(c: Catalog, row: BookRow) returns (r: Outcome)
    requires c.Valid() && Joins(c.authors, c.books, row)
    modifies c
    ensures r == (if row.year.Some? then Ok else BadYear)
    ensures c.authors == old(c.authors) && c.books == old(c.books)
  {
    var authorId := c.books[row.id].author;
    SelectedFieldsChecked(row.title, row.author, row.year);
    if row.year.None? {
      r := c.UpdateBook(FormatInt(row.id), row.title, row.author, YearText(row.year));
    } else {
      FormatRoundTrip(row.id);
      assert row.author in c.authors.Values by { assert c.authors[authorId] == row.author; }
      r := c.UpdateBook(FormatInt(row.id), row.title, row.author, YearText(row.year));
      assert c.books[row.id].author == authorId;
    }
  }

  /**
   * Selecting the only book of an author and deleting it, confirmed,
   * empties the book list and keeps the author.
   */
  method DeleteKeepsAuthor(title: string, author: string, year: Option<int>) returns (r: Outcome, bookRows: seq<BookRow>, authorRows: seq<AuthorRow>)
    requires Storable(title) && Storable(author)
    ensures r == Ok
    ensures bookRows == []
    ensures authorRows == [AuthorRow(1, author)]
  {
    var c, added := OneBook(title, author, year);
    OneBookListed(c.authors, c.books, 1);
    var row := BookList(c.authors, c.books)[0];
    FormatRoundTrip(row.id);
    r := c.DeleteBook(FormatInt(row.id), true);
    OneAuthorListed(c.authors, 1, author);
    bookRows := BookList(c.authors, c.books);
    authorRows := AuthorList(c.authors);
  }

  /**
   * Forms the handlers refuse and a deletion not confirmed: each reports
   * why, and both lists stay empty.
   */
  method Refusals(title: string, author: string, blank: string, yearField: string, idField: string)
    returns (noTitle: Outcome, badYear: Outcome, noId: Outcome, declined: Outcome, bookRows: seq<BookRow>, authorRows: seq<AuthorRow>)
    requires Storable(title) && Storable(author) && AllSpace(blank)
    requires !AllSpace(yearField) && !IsIntLiteral(Strip(yearField)) && idField != []
    ensures noTitle == MissingField && badYear == BadYear && noId == MissingField && declined == Cancelled
    ensures bookRows == [] && authorRows == []
  {
    var c := new Catalog();
    noTitle := c.AddBook(blank, author, "");
    StripTrimmed(title);
    StripTrimmed(author);
    badYear := c.AddBook(title, author, yearField);
    noId := c.UpdateBook("", title, author, "");
    declined := c.DeleteBook(idField, false);
    bookRows := BookList(c.authors, c.books);
    authorRows := AuthorList(c.authors);
  }

  /**
   * On any catalog, adding a book with a stored title and author and a
   * listed year: the book list gains exactly one row, the new book's under
   * the next id, and keeps every row it had.
   */
  method AddThenList(c: Catalog, title: string, author: string, year: Option<int>) returns (r: Outcome)
    requires c.Valid() && Storable(title) && Storable(author)
    modifies c
    ensures c.Valid() && r == Ok
    ensures |BookList(c.authors, c.books)| == |BookList(old(c.authors), old(c.books))| + 1
    ensures BookRow(old(c.nextBookId), title, author, year) in BookList(c.authors, c.books)
    ensures forall row :: row in BookList(old(c.authors), old(c.books)) ==> row in BookList(c.authors, c.books)
  {
    EnteredFieldsAccepted(title, author, year);
    ghost var a0, b0, id := c.authors, c.books, c.nextBookId;
    r := c.AddBook(title, author, EnteredYear(year));
    var book := c.books[id];
    assert c.books == b0[id := book];
    assert book == Book(title, book.author, year) && c.authors[book.author] == author;
    assert forall k :: k in a0 ==> k in c.authors && c.authors[k] == a0[k];
    AddListed(a0, b0, c.authors, id, book);
    KeptListed(a0, b0, c.authors, c.books);
  }

  /**
   * On any catalog, selecting a listed row and confirming its deletion:
   * the book list loses exactly that row and the author list is unchanged.
   */
  method DeleteSelected(c: Catalog, row: BookRow) returns (r: Outcome)
    requires c.Valid() && row in BookList(c.authors, c.books)
    modifies c
    ensures c.Valid() && r == Ok
    ensures |BookList(c.authors, c.books)| == |BookList(old(c.authors), old(c.books))| - 1
    ensures forall other :: other in BookList(c.authors, c.books) ==> other.id != row.id
    ensures forall other :: other in BookList(old(c.authors), old(c.books)) && other.id != row.id ==> other in BookList(c.authors, c.books)
    ensures AuthorList(c.authors) == AuthorList(old(c.authors))
  {
    ListedJoins(c.authors, c.books, row);
    FormatRoundTrip(row.id);
    RemoveListed(c.authors, c.books, row.id);
    r := c.DeleteBook(FormatInt(row.id), true);
  }

  /** The year field "1937" is the year 1937. */
  lemma YearDigits()
    ensures ParseYear("1937") == Parsed(Some(1937))
  {
    var s := "1937";
    assert s[..3] == "193" && s[..3][..2] == "19" && s[..3][..2][..1] == "1" && s[..3][..2][..1][..0] == "";
    assert DigitsValue("1") == 1;
    assert DigitsValue("19") == 19;
    assert DigitsValue("193") == 193;
    assert DigitsValue(s) == 1937;
    assert ParseInt(s) == Some(1937);
    StripTrimmed(s);
  }

  /** A year field holding only spaces and a tab is no year. */
  lemma YearBlank()
    ensures ParseYear("  \t") == Parsed(None)
  {
    var s := "  \t";
    forall i | 0 <= i < |s| ensures IsSpace(s[i]) {
      assert i == 0 || i == 1 || i == 2;
    }
  }

  /** A year field with a space inside the number is refused. */
  lemma YearSplit()
    ensures ParseYear("19 37") == NotAnInteger
  {
    var s := "19 37";
    assert !IsSpace(s[0]) && !IsSpace(s[4]);
    assert !IsDigit(s[2]) && !IsDigit(s[1..][1]);
    StripTrimmed(s);
  }
}
