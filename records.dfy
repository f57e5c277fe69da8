/** The record normalisers: one raw Goodreads XML record (author, book,
    review) in, one flat entity out, as `_get_author_from_data`,
    `_get_book_from_data`, `_get_review_from_data` and `maybe_date` build them. */
module Records {
  import opened Base
  import opened PyStr

  /** A parsed date and time, as dateutil returns it. */
  datatype Timestamp = Timestamp(year: int, month: int, day: int, hour: int, minute: int, second: int)

  /** `dateutil.parser.parse(text, default=d)`: the parser is not part of this model,
      so it is a parameter; None stands for the exception it raises on text it cannot read. */
  type DateParser = (string, Timestamp) -> Option<Timestamp>

  /** A calendar date, as `datetime.date` holds it. */
  datatype Date = Date(year: int, month: int, day: int)

  // Raw records: the text of the XML elements a record is read from (None when an element has no text).

  datatype RawAuthor = RawAuthor(id: string, name: Option<string>)

  datatype RawBook = RawBook(
    id: string,
    isbn: Option<string>,
    isbn13: Option<string>,
    title: Option<string>,
    titleWithoutSeries: Option<string>,
    numPages: Option<string>,
    publisher: Option<string>,
    publicationYear: Option<string>,
    publicationMonth: Option<string>,
    publicationDay: Option<string>,
    description: Option<string>,
    imageUrl: Option<string>,
    authors: seq<RawAuthor>)

  /** A `<shelf>` element of a review: its `name` and `id` attributes. */
  datatype RawShelf = RawShelf(name: Option<string>, id: string)

  datatype RawReview = RawReview(
    id: string,
    book: RawBook,
    rating: Option<string>,
    body: Option<string>,
    shelves: seq<RawShelf>,
    startedAt: Option<string>,
    readAt: Option<string>,
    dateAdded: Option<string>,
    dateUpdated: Option<string>)

  // Normalised entities.

  datatype Author = Author(id: string, name: Option<string>)

  datatype Book = Book(
    id: string,
    isbn: Option<string>,
    isbn13: Option<string>,
    title: Option<string>,
    series: Option<string>,
    seriesPosition: Option<string>,
    pages: Option<string>,
    publisher: Option<string>,
    publicationDate: Option<Date>,
    description: Option<string>,
    imageUrl: Option<string>,
    authors: seq<Author>)

  /** A shelf a review is filed under, tagged with the owning user. */
  datatype ShelfEntry = ShelfEntry(name: Option<string>, id: string, userId: string)

  /** The four optional date keys of a review record. */
  datatype DateField = StartedAt | ReadAt | DateAdded | DateUpdated

  /** The order in which the review normaliser visits the date keys. */
  const DateFields: seq<DateField> := [StartedAt, ReadAt, DateAdded, DateUpdated]

  /** A review record; a date key is present in `dates` only when it was set. */
  datatype Review = Review(
    id: string,
    bookId: string,
    userId: string,
    rating: Option<int>,
    text: string,
    shelves: seq<ShelfEntry>,
    dates: map<DateField, Timestamp>)

  /** `_get_author_from_data`: an author keeps its id and name. */
  function AuthorFromData(raw: RawAuthor): (a: Author)
    ensures a.id == raw.id && a.name == raw.name
  {
    Author(raw.id, raw.name)
  }

  // ---------------------------------------------------------------- titles

  /** Stripped around the series suffix of a raw title. */
  const SuffixChars: set<char> := {' ', '(', ')'}
  /** Stripped around a series name. */
  const SeriesChars: set<char> := {',', ' '}
  /** Stripped around a series position. */
  const PositionChars: set<char> := {',', ' ', '#'}

  datatype TitleParts = TitleParts(title: string, series: Option<string>, position: Option<string>)

  /** `title[len(title_without_series):].strip(" ()")`; Python's slice gives "" when the
      canonical title is the longer one. */
  function SeriesSuffix(title: string, titleWithoutSeries: string): string {
    Strip(if |titleWithoutSeries| <= |title| then title[|titleWithoutSeries|..] else "", SuffixChars)
  }

  /** Splits a series suffix at its first "#", else at its first "Book", else keeps it whole. */
  function SplitSeries(s: string): (r: (string, string))
    ensures Contains(s, "#") ==> SplitOnce(s, "#") == Some(r)
    ensures !Contains(s, "#") && Contains(s, "Book") ==> SplitOnce(s, "Book") == Some(r)
    ensures !Contains(s, "#") && !Contains(s, "Book") ==> r == (s, "")
  {
    match SplitOnce(s, "#")
    case Some(parts) => parts
    case None =>
      match SplitOnce(s, "Book")
      case Some(parts) => parts
      case None => (s, "")
  }

  /** The title/series splitter of `_get_book_from_data`. */
  function SplitTitle(title: string, titleWithoutSeries: string): (p: TitleParts)
    ensures title == titleWithoutSeries ==> p == TitleParts(title, None, None)
    ensures title != titleWithoutSeries ==> p.title == titleWithoutSeries && p.series.Some? && p.position.Some?
    ensures p.series.Some? ==> Trimmed(p.series.value, SeriesChars) && '#' !in p.series.value
    ensures p.position.Some? ==> Trimmed(p.position.value, PositionChars)
    ensures (title != titleWithoutSeries && !Contains(SeriesSuffix(title, titleWithoutSeries), "#")
             && !Contains(SeriesSuffix(title, titleWithoutSeries), "Book")) ==> p.position == Some("")
  {
    if title == titleWithoutSeries then
      TitleParts(title, None, None)
    else
      var suffix := SeriesSuffix(title, titleWithoutSeries);
      var parts := SplitSeries(suffix);
      var series := Strip(parts.0, SeriesChars);
      var position := Strip(parts.1, PositionChars);
      SeriesHasNoHash(suffix);
      StripKeepsOut(parts.0, SeriesChars, '#');
      StripTrims(parts.0, SeriesChars);
      StripTrims(parts.1, PositionChars);
      TitleParts(titleWithoutSeries, Some(series), Some(position))
  }

  /** The series part never holds a "#": it is cut before the first one. */
  lemma SeriesHasNoHash(suffix: string)
    ensures '#' !in SplitSeries(suffix).0
  {
    var (series, position) := SplitSeries(suffix);
    if Contains(suffix, "#") {
      forall i | 0 <= i < |series| ensures series[i] != '#' {
        assert !OccursAt(suffix, "#", i);
        OccursAtChar(suffix, '#', i);
        assert suffix[i] == series[i];
      }
    } else {
      NoCharWithoutOccurrence(suffix, '#');
      if Contains(suffix, "Book") {
        assert suffix == series + "Book" + position;
        assert forall i | 0 <= i < |series| :: series[i] == suffix[i];
      }
    }
  }

  /** `c` occurs as a one-character substring exactly when it is an element. */
  lemma NoCharWithoutOccurrence(s: string, c: char)
    ensures Contains(s, [c]) <==> c in s
  {
    if c in s {
      var i :| 0 <= i < |s| && s[i] == c;
      OccursAtChar(s, c, i);
    }
    if Contains(s, [c]) {
      var i := IndexOf(s, [c]).value;
      OccursAtChar(s, c, i);
    }
  }

  /** Neither end of a stripped text is a stripped character. */
  lemma StripTrims(s: string, cs: set<char>)
    ensures Trimmed(Strip(s, cs), cs)
  {
  }

  /** Stripping never brings in a character that was not there. */
  lemma StripKeepsOut(s: string, cs: set<char>, c: char)
    requires c !in s
    ensures c !in Strip(s, cs)
  {
    var l := LStrip(s, cs);
    assert c !in l;
  }

  /** The first occurrence of `sub` is at `k` when it occurs there and nowhere before. */
  lemma FirstOccurrence(s: string, sub: string, k: nat)
    requires OccursAt(s, sub, k)
    requires forall i: nat :: i < k ==> !OccursAt(s, sub, i)
    ensures SplitOnce(s, sub) == Some((s[..k], s[k + |sub|..]))
  {
    var j := IndexOf(s, sub).value;
    assert j <= k;
  }

  /** The suffix of "T (inner)" beyond T is `inner`, once the parentheses are stripped. */
  lemma SeriesSuffixOf(ts: string, inner: string)
    requires Trimmed(inner, SuffixChars)
    ensures SeriesSuffix(ts + " (" + inner + ")", ts) == inner
  {
    var t := ts + " (" + inner + ")";
    assert t[|ts|..] == " (" + inner + ")";
    StripExact(" (", inner, ")", SuffixChars);
  }

  lemma SplitTitleOfSuffix(ts: string, inner: string)
    requires Trimmed(inner, SuffixChars)
    ensures SplitTitle(ts + " (" + inner + ")", ts)
         == TitleParts(ts, Some(Strip(SplitSeries(inner).0, SeriesChars)), Some(Strip(SplitSeries(inner).1, PositionChars)))
  {
    SeriesSuffixOf(ts, inner);
    assert |ts + " (" + inner + ")"| > |ts|;
  }

  lemma SplitSeriesNumbered(series: string, position: string)
    requires '#' !in series
    ensures SplitSeries(series + ", #" + position) == (series + ", ", position)
  {
    var inner := series + ", #" + position;
    var k := |series| + 2;
    OccursAtChar(inner, '#', k);
    forall i: nat | i < k ensures !OccursAt(inner, "#", i) {
      OccursAtChar(inner, '#', i);
      if i < |series| { assert inner[i] == series[i]; }
    }
    FirstOccurrence(inner, "#", k);
    assert inner[..k] == series + ", ";
    assert inner[k + 1..] == position;
  }

  lemma SplitSeriesBook(series: string, position: string)
    requires '#' !in series && '#' !in position && !Contains(series, "Book")
    ensures SplitSeries(series + " Book " + position) == (series + " ", " " + position)
  {
    var inner := series + " Book " + position;
    assert '#' !in inner;
    NoCharWithoutOccurrence(inner, '#');
    var k := |series| + 1;
    assert OccursAt(inner, "Book", k) by { assert inner[k..k + 4] == "Book"; }
    forall i: nat | i < k ensures !OccursAt(inner, "Book", i) {
      if i + 4 <= |series| {
        assert series[i..i + 4] == inner[i..i + 4];
        assert !OccursAt(series, "Book", i);
      } else {
        assert inner[i..i + 4][|series| - i] == inner[|series|] == ' ';
      }
    }
    FirstOccurrence(inner, "Book", k);
    assert inner[..k] == series + " ";
    assert inner[k + 4..] == " " + position;
  }

  lemma SplitSeriesWhole(s: string)
    requires '#' !in s && !Contains(s, "Book")
    ensures SplitSeries(s) == (s, "")
  {
    NoCharWithoutOccurrence(s, '#');
  }

  /** "Title (Series, #N)" splits into the title, the series and the position N. */
  lemma SplitTitleNumbered(ts: string, series: string, position: string)
    requires series != [] ==> series[0] !in SuffixChars
    requires Trimmed(series, SeriesChars) && '#' !in series
    requires Trimmed(position, PositionChars)
    requires position != [] ==> position[|position| - 1] !in SuffixChars
    ensures SplitTitle(ts + " (" + series + ", #" + position + ")", ts)
         == TitleParts(ts, Some(series), Some(position))
  {
    var inner := series + ", #" + position;
    assert ts + " (" + series + ", #" + position + ")" == ts + " (" + inner + ")";
    var parts := SplitSeries(inner);
    assert parts == (series + ", ", position) by { SplitSeriesNumbered(series, position); }
    assert Strip(parts.0, SeriesChars) == series by { StripTrailing(series, ", ", SeriesChars); }
    assert Strip(parts.1, PositionChars) == position by { StripUnpaddedBy(position, PositionChars); }
    assert Trimmed(inner, SuffixChars) by {
      assert inner[0] == (if series == [] then ',' else series[0]);
      assert inner[|inner| - 1] == (if position == [] then '#' else position[|position| - 1]);
    }
    SplitTitleOfSuffix(ts, inner);
  }

  /** "Title (Series Book N)" splits into the title, the series and the position N. */
  lemma SplitTitleBook(ts: string, series: string, position: string)
    requires series != [] && series[0] !in SuffixChars
    requires Trimmed(series, SeriesChars) && '#' !in series && !Contains(series, "Book")
    requires Trimmed(position, PositionChars) && '#' !in position
    requires position != [] && position[|position| - 1] !in SuffixChars
    ensures SplitTitle(ts + " (" + series + " Book " + position + ")", ts)
         == TitleParts(ts, Some(series), Some(position))
  {
    var inner := series + " Book " + position;
    assert ts + " (" + series + " Book " + position + ")" == ts + " (" + inner + ")";
    assert inner[0] == series[0];
    assert inner[|inner| - 1] == position[|position| - 1];
    SplitTitleOfSuffix(ts, inner);
    SplitSeriesBook(series, position);
    assert Strip(series + " ", SeriesChars) == series by { StripTrailing(series, " ", SeriesChars); }
    assert Strip(" " + position, PositionChars) == position by { StripLeading(" ", position, PositionChars); }
  }

  /** "Title (Series)" with neither marker keeps the whole series and an empty position. */
  lemma SplitTitleStandalone(ts: string, series: string)
    requires Trimmed(series, SuffixChars) && Trimmed(series, SeriesChars)
    requires '#' !in series && !Contains(series, "Book")
    ensures SplitTitle(ts + " (" + series + ")", ts) == TitleParts(ts, Some(series), Some(""))
  {
    SplitTitleOfSuffix(ts, series);
    SplitSeriesWhole(series);
    assert Strip(series, SeriesChars) == series by { StripUnpaddedBy(series, SeriesChars); }
    assert Strip("", PositionChars) == "";
  }

  /** A text without a capital B holds no "Book". */
  lemma NoBookWithoutB(s: string)
    requires 'B' !in s
    ensures !Contains(s, "Book")
  {
    forall i: nat ensures !OccursAt(s, "Book", i) {
      if i + 4 <= |s| {
        assert s[i..i + 4][0] == s[i];
      }
    }
  }

  /** "Foo (Bar, #3)": a numbered series. */
  lemma SplitTitleNumberedExample()
    ensures SplitTitle("Foo (Bar, #3)", "Foo") == TitleParts("Foo", Some("Bar"), Some("3"))
  {
    assert "Foo" + " (" + "Bar" + ", #" + "3" + ")" == "Foo (Bar, #3)";
    SplitTitleNumbered("Foo", "Bar", "3");
  }

  /** "Foo (Bar Book 2)": a series numbered with "Book". */
  lemma SplitTitleBookExample()
    ensures SplitTitle("Foo (Bar Book 2)", "Foo") == TitleParts("Foo", Some("Bar"), Some("2"))
  {
    assert "Foo" + " (" + "Bar" + " Book " + "2" + ")" == "Foo (Bar Book 2)";
    assert !Contains("Bar", "Book");
    SplitTitleBook("Foo", "Bar", "2");
  }

  /** "Foo (Standalone)": a series without a position. */
  lemma SplitTitleStandaloneExample()
    ensures SplitTitle("Foo (Standalone)", "Foo") == TitleParts("Foo", Some("Standalone"), Some(""))
  {
    assert "Foo" + " (" + "Standalone" + ")" == "Foo (Standalone)";
    NoBookWithoutB("Standalone");
    SplitTitleStandalone("Foo", "Standalone");
  }

  /** The title text of a book: both texts missing leave the title missing; exactly one
      missing makes the slice raise, which nothing catches. */
  function BookTitle(title: Option<string>, titleWithoutSeries: Option<string>): (r: Result<Option<TitleParts>>)
    ensures r.Err? <==> title != titleWithoutSeries && (title.None? || titleWithoutSeries.None?)
    ensures r == Ok(None) <==> title.None? && titleWithoutSeries.None?
    ensures r.Ok? && r.value.Some? ==> title.Some? && titleWithoutSeries.Some?
    ensures title.Some? && titleWithoutSeries.Some? ==> r == Ok(Some(SplitTitle(title.value, titleWithoutSeries.value)))
  {
    if title.None? && titleWithoutSeries.None? then Ok(None)
    else if title.None? || titleWithoutSeries.None? then Err(TitleMissing)
    else Ok(Some(SplitTitle(title.value, titleWithoutSeries.value)))
  }

  // ------------------------------------------------------ publication date

  /** `int(text)`, raising on text that is not a decimal integer. */
  function IntOf(text: string): (r: Result<int>)
    ensures r.Ok? <==> ParseInt(text).Some?
    ensures r.Ok? ==> ParseInt(text) == Some(r.value)
    ensures r.Err? ==> r.error == NotAnInteger(text)
  {
    match ParseInt(text)
    case Some(n) => Ok(n)
    case None => Err(NotAnInteger(text))
  }

  /** `int(str(n)) == n`, as a result. */
  lemma IntOfShowNat(n: nat)
    ensures IntOf(ShowNat(n)) == Ok(n)
  {
    ParseIntShowNat(n);
  }

  predicate IsLeapYear(year: int) {
    year % 4 == 0 && (year % 100 != 0 || year % 400 == 0)
  }

  function DaysInMonth(year: int, month: int): int
    requires 1 <= month <= 12
  {
    if month == 2 then (if IsLeapYear(year) then 29 else 28)
    else if month == 4 || month == 6 || month == 9 || month == 11 then 30
    else 31
  }

  /** The dates `datetime.date` accepts: years 1 to 9999 of the proleptic Gregorian calendar. */
  predicate ValidDate(year: int, month: int, day: int) {
    1 <= year <= 9999 && 1 <= month <= 12 && 1 <= day <= DaysInMonth(year, month)
  }

  /** `int(text or 1)`: a missing or empty text stands for 1. */
  function IntOrOne(text: Option<string>): (r: Result<int>)
    ensures !Truthy(text) ==> r == Ok(1)
    ensures Truthy(text) ==> r == IntOf(text.value)
  {
    if Truthy(text) then IntOf(text.value) else Ok(1)
  }

  /** The publication date of a book: none without a year; month and day default to 1. */
  function PublicationDate(year: Option<string>, month: Option<string>, day: Option<string>): (r: Result<Option<Date>>)
    ensures r == Ok(None) <==> !Truthy(year)
    ensures r.Ok? && r.value.Some? ==>
      var date := r.value.value;
      && ValidDate(date.year, date.month, date.day)
      && ParseInt(year.value) == Some(date.year)
      && (if Truthy(month) then ParseInt(month.value) == Some(date.month) else date.month == 1)
      && (if Truthy(day) then ParseInt(day.value) == Some(date.day) else date.day == 1)
  {
    if !Truthy(year) then Ok(None)
    else
      var y :- IntOf(year.value);
      var m :- IntOrOne(month);
      var d :- IntOrOne(day);
      if ValidDate(y, m, d) then Ok(Some(Date(y, m, d))) else Err(InvalidCalendarDate(y, m, d))
  }

  /** With the year, month and day read as integers, the date is built exactly when they
      make a calendar date. */
  lemma PublicationDateOf(year: Option<string>, month: Option<string>, day: Option<string>, y: int, m: int, d: int)
    requires Truthy(year) && IntOf(year.value) == Ok(y) && IntOrOne(month) == Ok(m) && IntOrOne(day) == Ok(d)
    ensures PublicationDate(year, month, day) ==
      if ValidDate(y, m, d) then Ok(Some(Date(y, m, d))) else Err(InvalidCalendarDate(y, m, d))
  {
  }

  /** With a year, the date fails exactly when the year, the month or the day is not an
      integer, or the three do not make a calendar date; otherwise it is built. */
  lemma PublicationDateCases(year: Option<string>, month: Option<string>, day: Option<string>)
    requires Truthy(year)
    ensures ParseInt(year.value).None? || IntOrOne(month).Err? || IntOrOne(day).Err? ==>
      PublicationDate(year, month, day).Err?
    ensures ParseInt(year.value).Some? && IntOrOne(month).Ok? && IntOrOne(day).Ok? ==>
      var y, m, d := ParseInt(year.value).value, IntOrOne(month).value, IntOrOne(day).value;
      (PublicationDate(year, month, day).Ok? <==> ValidDate(y, m, d))
      && (PublicationDate(year, month, day).Ok? ==> PublicationDate(year, month, day) == Ok(Some(Date(y, m, d))))
  {
  }

  /** The date written out in decimal is read back as that date. */
  lemma PublicationDateOfShown(y: nat, m: nat, d: nat)
    requires ValidDate(y, m, d)
    ensures PublicationDate(Some(ShowNat(y)), Some(ShowNat(m)), Some(ShowNat(d))) == Ok(Some(Date(y, m, d)))
  {
    assert IntOf(ShowNat(y)) == Ok(y) by { IntOfShowNat(y); }
    assert IntOrOne(Some(ShowNat(m))) == Ok(m) by { IntOfShowNat(m); }
    assert IntOrOne(Some(ShowNat(d))) == Ok(d) by { IntOfShowNat(d); }
    PublicationDateOf(Some(ShowNat(y)), Some(ShowNat(m)), Some(ShowNat(d)), y, m, d);
  }

  /** A year alone gives the first of January of that year. */
  lemma PublicationDateDefaults(y: nat, month: Option<string>, day: Option<string>)
    requires 1 <= y <= 9999
    requires !Truthy(month) && !Truthy(day)
    ensures PublicationDate(Some(ShowNat(y)), month, day) == Ok(Some(Date(y, 1, 1)))
  {
    var year := Some(ShowNat(y));
    assert PublicationDate(year, month, day) == Ok(Some(Date(y, 1, 1))) by {
      assert Truthy(year) && IntOf(year.value) == Ok(y) by { IntOfShowNat(y); }
      PublicationDateOf(year, month, day, y, 1, 1);
    }
  }

  /** A month or day out of the calendar's range is an error, never a date. */
  lemma PublicationDateOutOfRange(y: nat, m: nat, d: nat)
    requires 1 <= y <= 9999 && !ValidDate(y, m, d)
    ensures PublicationDate(Some(ShowNat(y)), Some(ShowNat(m)), Some(ShowNat(d))) == Err(InvalidCalendarDate(y, m, d))
  {
    assert IntOf(ShowNat(y)) == Ok(y) by { IntOfShowNat(y); }
    assert IntOrOne(Some(ShowNat(m))) == Ok(m) by { IntOfShowNat(m); }
    assert IntOrOne(Some(ShowNat(d))) == Ok(d) by { IntOfShowNat(d); }
    PublicationDateOf(Some(ShowNat(y)), Some(ShowNat(m)), Some(ShowNat(d)), y, m, d);
  }

  // ---------------------------------------------------------------- rating

  /** `int(rating) or None if rating else None`: no text and a zero rating both mean "unrated". */
  function ParseRating(rating: Option<string>): (r: Result<Option<int>>)
    ensures r == Ok(None) <==> !Truthy(rating) || ParseInt(rating.value) == Some(0)
    ensures r.Ok? && r.value.Some? ==> r.value.value != 0 && Truthy(rating) && ParseInt(rating.value) == Some(r.value.value)
    ensures r.Err? <==> Truthy(rating) && ParseInt(rating.value).None?
  {
    if !Truthy(rating) then Ok(None)
    else
      var n :- IntOf(rating.value);
      Ok(if n == 0 then None else Some(n))
  }

  /** A rating written in decimal reads back as itself, except that 0 means unrated. */
  lemma RatingOfShown(n: nat)
    ensures ParseRating(Some(ShowNat(n))) == Ok(if n == 0 then None else Some(n))
  {
    ParseIntShowNat(n);
  }

  // ----------------------------------------------------------------- dates

  /** `maybe_date`: a date for a non-empty text, nothing for a missing or empty one.
      The parser's own default for missing components is `today`. */
  function MaybeDate(value: Option<string>, parse: DateParser, today: Timestamp): (r: Result<Option<Timestamp>>)
    ensures r == Ok(None) <==> !Truthy(value)
    ensures r.Ok? && r.value.Some? ==> Truthy(value) && parse(value.value, today) == Some(r.value.value)
    ensures r.Err? <==> Truthy(value) && parse(value.value, today).None?
  {
    if !Truthy(value) then Ok(None)
    else
      match parse(value.value, today)
      case Some(t) => Ok(Some(t))
      case None => Err(NotADate(value.value))
  }

  /** The text of the review element that holds the given date key. */
  function DateText(raw: RawReview, f: DateField): Option<string> {
    match f
    case StartedAt => raw.startedAt
    case ReadAt => raw.readAt
    case DateAdded => raw.dateAdded
    case DateUpdated => raw.dateUpdated
  }

  /** The date keys of a review record, for the keys `fields` visited in order. */
  function DatesFrom(raw: RawReview, fields: seq<DateField>, parse: DateParser, today: Timestamp)
    : (r: Result<map<DateField, Timestamp>>)
    ensures r.Ok? ==> forall f :: f in r.value <==> f in fields && Truthy(DateText(raw, f))
    ensures r.Ok? ==> forall f | f in r.value :: DateText(raw, f).Some? && parse(DateText(raw, f).value, today) == Some(r.value[f])
    ensures r.Err? <==> exists f | f in fields :: Truthy(DateText(raw, f)) && parse(DateText(raw, f).value, today).None?
  {
    if fields == [] then Ok(map[])
    else
      var f := fields[|fields| - 1];
      assert forall g | g in fields :: g in fields[..|fields| - 1] || g == f;
      var m :- DatesFrom(raw, fields[..|fields| - 1], parse, today);
      var d :- MaybeDate(DateText(raw, f), parse, today);
      if d.Some? then Ok(m[f := d.value]) else Ok(m)
  }

  /** Once a date key fails to parse, visiting further keys keeps that error. */
  lemma {:induction false} DatesFromErrExtends(raw: RawReview, fields: seq<DateField>, more: seq<DateField>,
                                               parse: DateParser, today: Timestamp)
    requires DatesFrom(raw, fields, parse, today).Err?
    ensures DatesFrom(raw, fields + more, parse, today) == DatesFrom(raw, fields, parse, today)
    decreases |more|
  {
    if more == [] {
      assert fields + more == fields;
    } else {
      assert (fields + more)[..|fields + more| - 1] == fields + more[..|more| - 1];
      DatesFromErrExtends(raw, fields, more[..|more| - 1], parse, today);
    }
  }

  /** Visiting one more key: the keys so far, then that key's date if it has one. */
  lemma DatesFromStep(raw: RawReview, fields: seq<DateField>, i: nat, parse: DateParser, today: Timestamp)
    requires i < |fields|
    ensures DatesFrom(raw, fields[..i + 1], parse, today)
         == match DatesFrom(raw, fields[..i], parse, today)
            case Err(e) => Err(e)
            case Ok(m) =>
              match MaybeDate(DateText(raw, fields[i]), parse, today)
              case Err(e) => Err(e)
              case Ok(d) => Ok(if d.Some? then m[fields[i] := d.value] else m)
  {
    assert fields[..i + 1][..i] == fields[..i];
  }

  /** The normaliser visits every date key. */
  lemma EveryDateField()
    ensures forall f: DateField :: f in DateFields
  {
    forall f: DateField ensures f in DateFields {
      match f
      case StartedAt => assert DateFields[0] == f;
      case ReadAt => assert DateFields[1] == f;
      case DateAdded => assert DateFields[2] == f;
      case DateUpdated => assert DateFields[3] == f;
    }
  }

  /** The shelves of a review, each tagged with the owning user. */
  function ShelfEntries(shelves: seq<RawShelf>, userId: string): (r: seq<ShelfEntry>)
    ensures |r| == |shelves|
    ensures forall i :: 0 <= i < |r| ==> r[i] == ShelfEntry(shelves[i].name, shelves[i].id, userId)
  {
    seq(|shelves|, i requires 0 <= i < |shelves| => ShelfEntry(shelves[i].name, shelves[i].id, userId))
  }

  // ---------------------------------------------------------------- review

  /** `_get_review_from_data`: the rating is read first, then the four date keys. */
  function ReviewFromData(raw: RawReview, userId: string, parse: DateParser, today: Timestamp): (r: Result<Review>)
    ensures r.Err? <==> ParseRating(raw.rating).Err? || DatesFrom(raw, DateFields, parse, today).Err?
    ensures r.Ok? ==> r.value.id == raw.id && r.value.bookId == raw.book.id && r.value.userId == userId
    ensures r.Ok? ==> ParseRating(raw.rating) == Ok(r.value.rating)
    ensures r.Ok? ==> r.value.text == Strip(raw.body.GetOr(""), Whitespace) && Trimmed(r.value.text, Whitespace)
    ensures r.Ok? ==> r.value.shelves == ShelfEntries(raw.shelves, userId)
    ensures r.Ok? ==> forall f :: f in r.value.dates <==> Truthy(DateText(raw, f))
    ensures r.Ok? ==> forall f | f in r.value.dates ::
      DateText(raw, f).Some? && parse(DateText(raw, f).value, today) == Some(r.value.dates[f])
  {
    var rating :- ParseRating(raw.rating);
    var dates :- DatesFrom(raw, DateFields, parse, today);
    EveryDateField();
    Ok(Review(raw.id, raw.book.id, userId, rating, Strip(raw.body.GetOr(""), Whitespace),
              ShelfEntries(raw.shelves, userId), dates))
  }

  /** `_get_review_from_data` as the source runs it: the record is built, then each date
      key visited in turn is added when its text gives a date. */
  method GetReviewFromData(raw: RawReview, userId: string, parse: DateParser, today: Timestamp)
    returns (r: Result<Review>)
    ensures r == ReviewFromData(raw, userId, parse, today)
  {
    var rating := ParseRating(raw.rating);
    if rating.Err? {
      return Err(rating.error);
    }
    var review := Review(raw.id, raw.book.id, userId, rating.value, Strip(raw.body.GetOr(""), Whitespace),
                         ShelfEntries(raw.shelves, userId), map[]);
    for i := 0 to |DateFields|
      invariant DatesFrom(raw, DateFields[..i], parse, today) == Ok(review.dates)
      invariant review.(dates := map[]) == Review(raw.id, raw.book.id, userId, rating.value,
        Strip(raw.body.GetOr(""), Whitespace), ShelfEntries(raw.shelves, userId), map[])
    {
      var key := DateFields[i];
      var date := MaybeDate(DateText(raw, key), parse, today);
      DatesFromStep(raw, DateFields, i, parse, today);
      if date.Err? {
        DatesFromErrExtends(raw, DateFields[..i + 1], DateFields[i + 1..], parse, today);
        assert DateFields[..i + 1] + DateFields[i + 1..] == DateFields;
        return Err(date.error);
      }
      if date.value.Some? {
        review := review.(dates := review.dates[key := date.value.value]);
      }
    }
    assert DateFields[..|DateFields|] == DateFields;
    return Ok(review);
  }

  // ------------------------------------------------------------------ book

  /** `_get_book_from_data`: the title and series first, then the publication date;
      every other field is copied. */
  function BookFromData(raw: RawBook, authors: seq<Author>): (r: Result<Book>)
    ensures r.Err? <==> BookTitle(raw.title, raw.titleWithoutSeries).Err?
                        || PublicationDate(raw.publicationYear, raw.publicationMonth, raw.publicationDay).Err?
    ensures r.Ok? ==> r.value.id == raw.id && r.value.isbn == raw.isbn && r.value.isbn13 == raw.isbn13
    ensures r.Ok? ==> r.value.pages == raw.numPages && r.value.publisher == raw.publisher
    ensures r.Ok? ==> r.value.description == raw.description && r.value.imageUrl == raw.imageUrl
    ensures r.Ok? ==> r.value.authors == authors
    ensures r.Ok? ==> PublicationDate(raw.publicationYear, raw.publicationMonth, raw.publicationDay) == Ok(r.value.publicationDate)
    ensures r.Ok? && raw.title == raw.titleWithoutSeries ==>
      r.value.title == raw.title && r.value.series.None? && r.value.seriesPosition.None?
    ensures r.Ok? && raw.title != raw.titleWithoutSeries ==>
      r.value.title == raw.titleWithoutSeries && r.value.series.Some? && r.value.seriesPosition.Some?
    ensures r.Ok? && raw.title.Some? && raw.titleWithoutSeries.Some? ==>
      var p := SplitTitle(raw.title.value, raw.titleWithoutSeries.value);
      r.value.title == Some(p.title) && r.value.series == p.series && r.value.seriesPosition == p.position
  {
    var parts :- BookTitle(raw.title, raw.titleWithoutSeries);
    var date :- PublicationDate(raw.publicationYear, raw.publicationMonth, raw.publicationDay);
    var title := if parts.Some? then Some(parts.value.title) else None;
    var series := if parts.Some? then parts.value.series else None;
    var position := if parts.Some? then parts.value.position else None;
    Ok(Book(raw.id, raw.isbn, raw.isbn13, title, series, position, raw.numPages, raw.publisher,
            date, raw.description, raw.imageUrl, authors))
  }

  /** A book listed as "<title> (<series>, #<position>)" is stored under its plain title,
      with that series and position. */
  lemma BookSeriesNumbered(raw: RawBook, authors: seq<Author>, ts: string, series: string, position: string)
    requires raw.title == Some(ts + " (" + series + ", #" + position + ")") && raw.titleWithoutSeries == Some(ts)
    requires series != [] ==> series[0] !in SuffixChars
    requires Trimmed(series, SeriesChars) && '#' !in series
    requires Trimmed(position, PositionChars)
    requires position != [] ==> position[|position| - 1] !in SuffixChars
    requires BookFromData(raw, authors).Ok?
    ensures var book := BookFromData(raw, authors).value;
      book.title == Some(ts) && book.series == Some(series) && book.seriesPosition == Some(position)
  {
    SplitTitleNumbered(ts, series, position);
  }
}
