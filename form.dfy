/**
 * The validation the add and update handlers of biblioteca.py run on the
 * form fields before they touch either table: strip the title, the author
 * name and the year, demand a title and an author, and parse the year.
 */
module Form {
  import opened Optional
  import opened Text
  import opened Numerals

  /** What a handler reports, in place of the message box it shows. */
  datatype Outcome = Ok | MissingField | BadYear | NotFound | Cancelled

  /** The year field read as a nullable integer column value, or refused. */
  datatype YearParse = Parsed(year: Option<int>) | NotAnInteger

  /**
   * `int(ano) if ano else None` applied to `ano = field.strip()`: a blank
   * field is no year, an integer literal is that integer with no range
   * check, and anything else is refused.
   */
  function ParseYear(field: string): (r: YearParse)
    ensures r == Parsed(None) <==> AllSpace(field)
    ensures r == NotAnInteger <==> !AllSpace(field) && !IsIntLiteral(Strip(field))
    ensures r.Parsed? && r.year.Some? ==> ParseInt(Strip(field)) == r.year
  {
    var ano := Strip(field);
    if ano == [] then Parsed(None)
    else match ParseInt(ano)
      case Some(n) => Parsed(Some(n))
      case None => NotAnInteger
  }

  /** The form fields once checked: the stripped values, or the reason they were refused. */
  datatype Fields = Accepted(title: string, author: string, year: Option<int>) | Rejected(outcome: Outcome)

  /** A value the handlers may store as a title or an author name. */
  predicate Storable(s: string) {
    s != [] && Trimmed(s)
  }

  /**
   * The checks shared by the add and update handlers: a missing title or
   * author is reported first, then a year that is not an integer; an accepted
   * form carries the stripped title and author and the parsed year.
   */
  function CheckFields(titleField: string, authorField: string, yearField: string): (f: Fields)
    ensures f.Rejected? ==> f.outcome == MissingField || f.outcome == BadYear
    ensures f == Rejected(MissingField) <==> AllSpace(titleField) || AllSpace(authorField)
    ensures f == Rejected(BadYear) <==> !AllSpace(titleField) && !AllSpace(authorField) && ParseYear(yearField) == NotAnInteger
    ensures f.Accepted? ==> f.title == Strip(titleField) && f.author == Strip(authorField) && ParseYear(yearField) == Parsed(f.year)
    ensures f.Accepted? ==> Storable(f.title) && Storable(f.author)
  {
    var titulo := Strip(titleField);
    var autorNome := Strip(authorField);
    if titulo == [] || autorNome == [] then Rejected(MissingField)
    else match ParseYear(yearField)
      case NotAnInteger => Rejected(BadYear)
      case Parsed(y) => Accepted(titulo, autorNome, y)
  }

  /**
   * The year field as the user types it for `year`: blank for no year, the
   * decimal literal otherwise. This is also what selecting a row is meant to
   * put back in the year field, where a missing year is tested for before
   * anything is filled in.
   */
  function EnteredYear(year: Option<int>): (s: string)
    ensures year.None? <==> s == []
  {
    match year
    case None => ""
    case Some(n) => FormatInt(n)
  }

  /**
   * What selecting a row actually puts in the year field: the list holds
   * every value as its `str()` text, so a book with no year comes back as the
   * text `None`, and the test for a missing value never fires.
   */
  function YearText(year: Option<int>): (s: string)
    ensures year.None? <==> s == "None"
    ensures year.Some? ==> s == EnteredYear(year)
  {
    match year
    case None => "None"
    case Some(n) => FormatInt(n)
  }

  /** A year typed as its literal or left blank, with any whitespace around it, parses to that year. */
  lemma YearRoundTrip(year: Option<int>, pre: string, post: string)
    requires AllSpace(pre) && AllSpace(post)
    ensures ParseYear(pre + EnteredYear(year) + post) == Parsed(year)
  {
    var field := pre + EnteredYear(year) + post;
    StripPadded(pre, EnteredYear(year), post);
    match year
    case None =>
      assert Strip(field) == [];
    case Some(n) =>
      FormatRoundTrip(n);
      assert Strip(field) == FormatInt(n);
  }

  /** A stored title and author name with the year typed for it pass validation unchanged. */
  lemma EnteredFieldsAccepted(title: string, author: string, year: Option<int>)
    requires Storable(title) && Storable(author)
    ensures CheckFields(title, author, EnteredYear(year)) == Accepted(title, author, year)
  {
    StripTrimmed(title);
    StripTrimmed(author);
    YearRoundTrip(year, [], []);
    assert [] + EnteredYear(year) + [] == EnteredYear(year);
  }

  /**
   * The fields that selecting a stored book fills in: the title and author
   * name come back as they are and a year parses back to the stored one, but
   * a book with no year fills in `None`, which is refused as not an integer.
   */
  lemma SelectedFieldsChecked(title: string, author: string, year: Option<int>)
    requires Storable(title) && Storable(author)
    ensures CheckFields(title, author, YearText(year)) ==
      if year.Some? then Accepted(title, author, year) else Rejected(BadYear)
  {
    EnteredFieldsAccepted(title, author, year);
    if year.None? {
      StripTrimmed("None");
      assert !IsIntLiteral("None") by { assert !IsDigit('N'); }
    }
  }
}
