# goodreads-to-sqlite, modelled in Dafny

goodreads-to-sqlite exports one Goodreads user's library into a SQLite database. This
project models its core, `goodreads_to_sqlite/utils.py`, and proves properties about it.
The core has the following parts:

- **Normalisers** (module `Records`):
  - `_get_author_from_data`, `_get_book_from_data` and `_get_review_from_data` turn the
    raw XML elements of an author, a book and a review into flat records.
  - For a book, that includes the title/series splitter and the publication date built
    from year, month and day text.
  - For a review, that includes the rating rule, the trimmed body, the shelves tagged
    with the user id, and the four optional dates read through `maybe_date`.
- **Listing walk** `fetch_books` (module `Fetch`):
  - It requests the paged XML review listing from page 1 while `end < total`.
  - It records every author, book and review in three id-keyed dictionaries, where the
    last write wins.
  - When asked to, it runs the scraping pass, then saves authors, books and reviews.
- **Read-date backfill** `scrape_data` (module `Scrape`):
  - It walks the HTML listing of the "read" shelf.
  - It sets `read_at` on candidate reviews, meaning those on the "read" shelf with no
    read date yet, and counts the dates it set.
  - It stops at the first page with no "next" link, or once the rows seen reach the
    shelf size shown on the first page.
- **Users** (module `Users`):
  - `fetch_user_id` reads the numeric user id off a profile URL, or answers from the
    database.
  - `fetch_user_and_shelves` answers from the database when the stored user is fresh;
    otherwise it fetches the user and saves them with their shelves.
- **Saves** (module `Store`): `save_authors`, `save_books`, `save_reviews`, `save_user`
  and `save_shelf` act on a `Database` class.
  - The class holds one map per table and one set per join table.
  - Every write is an insert-or-replace by primary key.

Two supporting modules sit underneath:

- `PyStr` holds the Python string operations the core relies on: `strip` with a
  character set, `find`, `split(sep, 1)`, `split("/")[-1]`, `split("-")[0]`, `int()` on
  text and `str.isdigit`.
- `Dicts` holds Python's insertion-ordered dict and the upsert fold, which covers both
  the in-memory dictionaries and the tables.

The network is a parameter:

- A listing walk gets the sequence of responses its pages would receive.
- Page `p` is answered by element `p - 1`.
- A response is either a served page or an HTTP failure.
- Asking for a page past the end of the sequence ends the run with a `NoResponse` error.

The date parser (`dateutil.parser.parse`) and the current time are parameters too.
Every fatal path of the source (an exception, or `error()` and its `sys.exit`) becomes an
`Err` of `Base.Result`.

`fetch_books`, `scrape_data`, the review, author and row loops, and the save loops are
methods with loops:

- `Fetch.FetchBooks`, `Fetch.WalkListing`, `Fetch.RecordPage`, `Fetch.RecordReview` and
  `Fetch.RecordAuthors`.
- `Scrape.ScrapeData` and `Scrape.FillPage`.
- `Records.GetReviewFromData`.
- The `Store.Database` methods.

Each is proved equal to a function, and the lemmas state what the source promises about
that function.

Two points about `fetch_user_and_shelves`:

- A missing or empty `<user_shelves>` element makes `error()` exit the process. The
  model makes this the fatal `PrivateShelves` error.
- As written, its freshness test does not require a stored shelf. This is the finding
  below.

## Model

| member | source | states |
|---|---|---|
| PyStr.Strip | goodreads_to_sqlite/utils.py:169-170 | `str.strip(chars)`: no character of the set is left at either end, and the result is no longer than the input. |
| PyStr.StripIsSlice | goodreads_to_sqlite/utils.py:169-170 | The stripped text is a slice of the input, and everything cut from either end is a character of the set. |
| PyStr.StripIdempotent | goodreads_to_sqlite/utils.py:169-170 | Stripping twice with the same characters is stripping once. |
| PyStr.IndexOf | goodreads_to_sqlite/utils.py:104 | `str.find`: the index of the first occurrence of the substring, or none when it does not occur. |
| PyStr.SplitOnce | goodreads_to_sqlite/utils.py:163 | `split(sep, maxsplit=1)`: the parts before and after the first occurrence of `sep`, and nothing when `sep` does not occur. |
| PyStr.AfterLast | goodreads_to_sqlite/utils.py:241 | `split("/")[-1]`: the text after the last separator, free of it, and the whole text when there is none. |
| PyStr.BeforeFirst | goodreads_to_sqlite/utils.py:241 | `split("-")[0]`: the text before the first separator, free of it, and the whole text when there is none. |
| PyStr.ParseInt | goodreads_to_sqlite/utils.py:47-48 | `int(text)` fails on text that is blank once whitespace is stripped. |
| PyStr.ParseIntExact | goodreads_to_sqlite/utils.py:47-48 | `int(text)` succeeds exactly when the text, once whitespace is stripped, is digits with at most one leading sign. The value is the digits' value, negated after `-`. |
| PyStr.ParseIntRefuses | goodreads_to_sqlite/utils.py:47-48 | Trimmed text with a non-digit after its first character, such as `12a`, `1.5` or `- 5`, does not parse. |
| PyStr.ParseIntShowNat | goodreads_to_sqlite/utils.py:47-48 | `int(str(n)) == n` for every natural number. |
| PyStr.ParseIntNegative | goodreads_to_sqlite/utils.py:47 | `int("-" + str(n)) == -n`. |
| PyStr.ParseIntIgnoresWhitespace | goodreads_to_sqlite/utils.py:47-48 | Whitespace around a number does not change what `int` reads. |
| Dicts.Upserts | goodreads_to_sqlite/utils.py:61 | Writing key/value pairs in order never loses a key that was already present. |
| Dicts.UpsertsLastWins | goodreads_to_sqlite/utils.py:61-68 | After a run of writes, a key is present exactly when it was present before or written. It holds the value of its last write, and an unwritten key keeps its old value. |
| Dicts.UpsertsIdempotent | goodreads_to_sqlite/utils.py:126 | Repeating the same run of insert-or-replace writes changes nothing. |
| Dicts.UpsertsAppend | goodreads_to_sqlite/utils.py:61-68 | Writing two runs one after the other is writing their concatenation. |
| Dicts.Dict.Put | goodreads_to_sqlite/utils.py:61 | `d[k] = v` sets the entry and keeps the insertion order. A new key goes last; an existing key keeps its place. |
| Dicts.Dict.Values | goodreads_to_sqlite/utils.py:75-77 | `list(d.values())` lists the entries in insertion order. |
| Dicts.PutAll | goodreads_to_sqlite/utils.py:58-62 | A run of `d[k] = v` writes is the upsert fold on the entries, and it keeps the dictionary well formed. |
| Records.AuthorFromData | goodreads_to_sqlite/utils.py:151-152 | An author record keeps exactly the element's id and name. |
| Records.SplitSeries | goodreads_to_sqlite/utils.py:162-168 | The suffix is split at its first `#`; failing that, at its first `Book`; failing that, the whole suffix is the series and the position is empty. |
| Records.SplitTitle | goodreads_to_sqlite/utils.py:156-171 | Equal titles leave the title unchanged with no series and no position. Otherwise the title becomes `title_without_series`, and the series (with no `#`) and the position come out stripped of their characters. The position is empty when the suffix holds neither `#` nor `Book`. |
| Records.SeriesHasNoHash | goodreads_to_sqlite/utils.py:162-163 | The series part of a split never contains `#`. |
| Records.SplitTitleNumbered | goodreads_to_sqlite/utils.py:160-171 | `"<t> (<series>, #<pos>)"` with `title_without_series == t` gives exactly `(t, series, pos)`. |
| Records.SplitTitleBook | goodreads_to_sqlite/utils.py:160-171 | `"<t> (<series> Book <pos>)"` gives exactly `(t, series, pos)`. |
| Records.SplitTitleStandalone | goodreads_to_sqlite/utils.py:166-171 | `"<t> (<series>)"` with neither `#` nor `Book` gives `(t, series, "")`. |
| Records.SplitTitleNumberedExample | goodreads_to_sqlite/utils.py:156-171 | "Foo (Bar, #3)" with "Foo" gives ("Foo", "Bar", "3"). |
| Records.SplitTitleBookExample | goodreads_to_sqlite/utils.py:156-171 | "Foo (Bar Book 2)" with "Foo" gives ("Foo", "Bar", "2"). |
| Records.SplitTitleStandaloneExample | goodreads_to_sqlite/utils.py:156-171 | "Foo (Standalone)" with "Foo" gives ("Foo", "Standalone", ""). |
| Records.BookTitle | goodreads_to_sqlite/utils.py:158-171 | Missing title text: two missing titles are equal and give no split. Exactly one missing title fails, because slicing or stripping None raises. Two present titles give the split. |
| Records.IntOf | goodreads_to_sqlite/utils.py:176-178 | `int(text)` succeeds exactly when the text reads as an integer, with that value, and otherwise fails with the text as its error. |
| Records.IntOfShowNat | goodreads_to_sqlite/utils.py:176 | `int` gives back any natural number written in decimal. |
| Records.IntOrOne | goodreads_to_sqlite/utils.py:177-178 | `int(text or 1)`: empty or missing text gives 1, and anything else is `int(text)`. |
| Records.PublicationDate | goodreads_to_sqlite/utils.py:172-179 | There is no date exactly when the year text is empty or missing. Otherwise the date is a valid calendar date whose year is `int(year)`, whose month is `int(month)` or 1 when that text is empty, and likewise for the day. |
| Records.PublicationDateCases | goodreads_to_sqlite/utils.py:172-179 | With a year text, a year, month or day text that `int` refuses fails. When all three parse, the date succeeds exactly when year, month and day form a valid calendar date, and it is that date. |
| Records.PublicationDateOfShown | goodreads_to_sqlite/utils.py:172-179 | Year, month and day written out for a valid date give that date. |
| Records.PublicationDateDefaults | goodreads_to_sqlite/utils.py:177-178 | With month and day empty, the date is 1 January of the year. |
| Records.PublicationDateOutOfRange | goodreads_to_sqlite/utils.py:175-179 | A month or day out of range fails as `dt.date` does. |
| Records.ParseRating | goodreads_to_sqlite/utils.py:197-198 | No rating exactly when the text is empty, missing or reads as 0. A rating is the non-zero integer the text reads as. Text that is not an integer fails. |
| Records.RatingOfShown | goodreads_to_sqlite/utils.py:198 | `"0"` gives no rating, and `str(n)` for non-zero `n` gives `n`. |
| Records.MaybeDate | goodreads_to_sqlite/utils.py:296-299 | Empty or missing text gives no date. Otherwise the date is what the parser makes of the text, and a parser failure is an error. |
| Records.DatesFrom | goodreads_to_sqlite/utils.py:214-217 | A date key is present exactly when its text is non-empty, with the parsed value. Visiting the keys fails exactly when some non-empty text does not parse. |
| Records.DatesFromErrExtends | goodreads_to_sqlite/utils.py:214-217 | Once a date key fails, the remaining keys do not change the failure. |
| Records.EveryDateField | goodreads_to_sqlite/utils.py:214 | The loop visits all four date keys. |
| Records.ShelfEntries | goodreads_to_sqlite/utils.py:205-212 | One entry per shelf element, in order, each with the element's name and id and tagged with the user id. |
| Records.ReviewFromData | goodreads_to_sqlite/utils.py:196-218 | The review fails exactly when its rating or a date fails. It keeps the review, book and user ids. Its rating is the rating rule's and its text is the stripped body. Its shelves are tagged with the user id. It has a date key exactly for each non-empty date text, with the parsed value. |
| Records.GetReviewFromData | goodreads_to_sqlite/utils.py:196-218 | The loop over the four date keys builds exactly the record `ReviewFromData` specifies. |
| Records.BookFromData | goodreads_to_sqlite/utils.py:155-193 | The book fails exactly when its title or publication date fails. It copies id, isbn, isbn13, pages, publisher, description, image and the given authors. It has the specified publication date. Its title, series and position are exactly what the title splitter gives for the two titles. |
| Records.BookSeriesNumbered | goodreads_to_sqlite/utils.py:156-171 | A book titled `"<t> (<series>, #<pos>)"` with `title_without_series` equal to `t` is stored with title `t`, series `series` and position `pos`. |
| Store.SaveBooksTables | goodreads_to_sqlite/utils.py:131-135 | `save_books` upserts one row per book (the record without its authors) and upserts each book's authors. It adds one book/author link per author and changes no other table. |
| Store.SaveBooksIdempotent | goodreads_to_sqlite/utils.py:131-135 | Saving the same books twice is saving them once. |
| Store.SaveBooksLastWins | goodreads_to_sqlite/utils.py:131-135 | A book id is in the table exactly when it was there or is saved, and it holds the row of the last book saved with that id. |
| Store.SaveBookTwice | goodreads_to_sqlite/utils.py:135 | Saving two books with one id leaves the second book's row. |
| Store.SaveReviewsTables | goodreads_to_sqlite/utils.py:138-148 | `save_reviews` upserts one row per review (the record without its shelves) and upserts each review's shelves. It adds one review/shelf link per shelf and changes no other table. |
| Store.SaveReviewsIdempotent | goodreads_to_sqlite/utils.py:138-148 | Saving the same reviews twice is saving them once. |
| Store.SaveReviewsLastWins | goodreads_to_sqlite/utils.py:138-148 | A review id is in the table exactly when it was there or is saved, and it holds the row of the last review saved with that id. |
| Store.SaveShelvesTables | goodreads_to_sqlite/utils.py:279-290 | After a user's shelves are saved, a shelf id is present exactly when it was present or saved. Every saved shelf and every new row carries the user's id. |
| Store.SaveShelvesOnlyShelves | goodreads_to_sqlite/utils.py:284-293 | Saving shelves changes no table but the shelves table. |
| Store.SaveShelvesUpserts | goodreads_to_sqlite/utils.py:279-290 | Saving a user's shelves one by one is the upsert of their rows, each tagged with the user id, in order. |
| Store.SaveShelvesLastWins | goodreads_to_sqlite/utils.py:279-290 | A saved shelf id holds the row of the last shelf saved with that id: its name and the user's id. An id no saved shelf carries keeps its old row. |
| Store.Database.SaveAuthors | goodreads_to_sqlite/utils.py:123-128 | The authors table becomes the upsert of the authors by id, and nothing else changes. |
| Store.Database.SaveBooks | goodreads_to_sqlite/utils.py:131-135 | The loop over the books leaves the tables as `SaveBooksTo` specifies. |
| Store.Database.SaveReviews | goodreads_to_sqlite/utils.py:138-148 | The loop over the reviews leaves the tables as `SaveReviewsTo` specifies. |
| Store.Database.SaveShelf | goodreads_to_sqlite/utils.py:284-293 | The shelf row keeps only id and name, adds the user's id, and replaces any row with that id. |
| Store.Database.SaveUser | goodreads_to_sqlite/utils.py:276-281 | The user row keeps only id, name and username, then each shelf is saved under the user's id. |
| Users.RequestUrl | goodreads_to_sqlite/utils.py:233 | A username starting with "http" is requested as given, and anything else under the site's base URL. |
| Users.IdSegment | goodreads_to_sqlite/utils.py:241 | The candidate id contains neither `/` nor `-`. |
| Users.UserIdFromUrl | goodreads_to_sqlite/utils.py:241-243 | An id is found exactly when the candidate segment is all digits, and it is that segment. |
| Users.UserIdOfProfileUrl | goodreads_to_sqlite/utils.py:241 | `<prefix>/<digits>-<name>` gives `<digits>`, with or without trailing slashes. |
| Users.UserIdOfNumber | goodreads_to_sqlite/utils.py:241-243 | A bare numeric id gives itself. |
| Users.FetchUserIdOnline | goodreads_to_sqlite/utils.py:232-244 | The result is all digits. An HTTP failure is an error. For a non-author username on a served page, the lookup succeeds exactly when the final redirect URL yields an id, which is the result; otherwise it fails with `NoUserId`. For an author page, a missing Bookshelves link is `AlternateLinkMissing`; otherwise the lookup succeeds exactly when the link yields an id, and fails with `NoUserId` otherwise. |
| Users.FetchUserIdOfRedirect | goodreads_to_sqlite/utils.py:232-244 | A vanity username redirected to `<prefix>/<digits>-<name>` gives `<digits>`. |
| Users.FetchUserId | goodreads_to_sqlite/utils.py:221-244 | Unless forced online, a stored user with the username answers with its id. Otherwise the result is the online lookup. |
| Users.UserFromData | goodreads_to_sqlite/utils.py:259-272 | A missing or empty shelf list is the fatal private-shelves error. Otherwise the record keeps id, name and username, with one shelf record (id, name) per shelf, in order. |
| Users.ShelvesOf | goodreads_to_sqlite/utils.py:250 | `rows_where("user_id = ?")`: exactly the stored shelf rows of the user. |
| Users.CachedAsWritten | goodreads_to_sqlite/utils.py:248-253 | As written, the database answers exactly when the user row is stored and every value in it is non-empty, whatever shelves are stored. It answers with the stored row and the user's stored shelves. |
| Users.Cached | goodreads_to_sqlite/utils.py:248-253 | As intended, the database answers exactly when the user row is complete and at least one shelf is stored, and it answers with that row and those shelves. |
| Users.CachedAsWrittenIgnoresShelves | goodreads_to_sqlite/utils.py:250-251 | A complete user with no stored shelf is served from the database as written, with no shelves, and is fetched again as intended. |
| Users.FetchUserRecord | goodreads_to_sqlite/utils.py:255-272 | An HTTP failure is an error, and a served page gives the user record `UserFromData` builds. |
| Users.FetchUserAndShelves | goodreads_to_sqlite/utils.py:247-273 | As written, with the freshness test `CachedAsWritten`: a complete stored user row is returned, with whatever shelves are stored, and nothing is written. A failed fetch writes nothing. A successful fetch saves the user and its shelves and returns nothing. |
| Users.FetchAndSaveUser | goodreads_to_sqlite/utils.py:254-273 | A failed fetch is an error and writes nothing. A fetched user is saved with its shelves, and nothing is returned. |
| Users.FetchFreshUserAndShelves | goodreads_to_sqlite/utils.py:247-273 | As intended, with the freshness test `Cached`: the database answers only for a complete user row with at least one stored shelf. Otherwise the call behaves as the fetch-and-save does. |
| Users.SavedUserIsFresh | goodreads_to_sqlite/utils.py:247-281 | Once a fetched user is saved, the next lookup answers from the database exactly when the user's id, name and username are all non-empty. |
| Scrape.ReviewIdOf | goodreads_to_sqlite/utils.py:108 | The review id is the row id minus its first seven characters, or empty for a shorter row id. |
| Scrape.ReviewIdOfRow | goodreads_to_sqlite/utils.py:108 | Row id `"review_<id>"` gives `<id>`. |
| Scrape.Candidates | goodreads_to_sqlite/utils.py:81-86 | The candidates are exactly the reviews with no read date and a shelf named "read". |
| Scrape.ShelfCount | goodreads_to_sqlite/utils.py:103-104 | A listing without a selected-shelf link fails. |
| Scrape.ShelfCountOfLabel | goodreads_to_sqlite/utils.py:103-104 | A selected-shelf label "<caption>(<n>)" shows the count `n`. |
| Scrape.ReadListingPage | goodreads_to_sqlite/utils.py:101-106 | A listing page carries the shelf count read off its label, its rows and its next-link flag. |
| Scrape.SetReadAt | goodreads_to_sqlite/utils.py:112-114 | `reviews[id]["read_at"] = date` changes that review's read date only, and keeps the keys and their order. |
| Scrape.FillRow | goodreads_to_sqlite/utils.py:108-115 | A row that is not a dated candidate row changes nothing. A dated candidate row fails exactly when its date does not parse. Otherwise it sets that review's read date to the parsed date and adds one to the count. |
| Scrape.FillRows | goodreads_to_sqlite/utils.py:107-116 | Filling a page's rows keeps the reviews' keys and their order. |
| Scrape.FillCountAppend | goodreads_to_sqlite/utils.py:115 | The count of dates set on two runs of rows is the sum of their counts. |
| Scrape.FillRowsFails | goodreads_to_sqlite/utils.py:110-114 | A page fails exactly when some candidate row's date does not parse. |
| Scrape.FillRowsKeeps | goodreads_to_sqlite/utils.py:107-116 | Filling a page changes nothing but candidates' read dates, and the counter grows by the number of candidate rows with a date. |
| Scrape.FillRowsSources | goodreads_to_sqlite/utils.py:107-116 | Every review a page changed now has a read date, which some candidate row of the page parsed to. |
| Scrape.LastDateAt | goodreads_to_sqlite/utils.py:108-114 | The dated candidate row naming a review with no later such row gives that review's last date text. |
| Scrape.LastDateNone | goodreads_to_sqlite/utils.py:108-114 | When no dated candidate row names a review, there is no last date for it. |
| Scrape.LastDateAppend | goodreads_to_sqlite/utils.py:107-118 | Over two runs of rows, the last date is the second run's when it has one, and the first run's otherwise. |
| Scrape.WithReadAtTwice | goodreads_to_sqlite/utils.py:114 | Setting `read_at` twice leaves the second date. |
| Scrape.FillRowsSets | goodreads_to_sqlite/utils.py:107-116 | After a page is filled, each review has as its read date the parse of the last dated candidate row naming it, and a review no such row names is unchanged. |
| Scrape.SetsLastDatesAppend | goodreads_to_sqlite/utils.py:97-118 | Setting dates from one run of rows and then from the next is setting them from both runs together. |
| Scrape.SetsLastDateRows | goodreads_to_sqlite/utils.py:108-114 | Spelled out row by row: the last dated candidate row naming a review gives its read date, which parses, and without such a row the review is unchanged. |
| Scrape.FillRowsErrExtends | goodreads_to_sqlite/utils.py:112-114 | Once a row fails, the rows after it do not change the failure. |
| Scrape.ScrapePage | goodreads_to_sqlite/utils.py:97-118 | One iteration succeeds only on a served page whose rows fill. It keeps keys and order, and a stop has read `p + 1` pages. |
| Scrape.ScrapeFrom | goodreads_to_sqlite/utils.py:97-118 | A successful pass read at least one page and no more than were answered, and kept the reviews' keys and order. |
| Scrape.ScrapeFromEffect | goodreads_to_sqlite/utils.py:97-118 | A successful pass changed nothing but candidates' read dates. Its counter is the number of candidate rows with a date on the pages it read. |
| Scrape.ScrapeFromSets | goodreads_to_sqlite/utils.py:97-118 | After a successful pass, each review has as its read date the parse of the last dated candidate row naming it on the pages read, and is otherwise unchanged. |
| Scrape.ScrapeFromStops | goodreads_to_sqlite/utils.py:97-118 | Every page read was served. The pass stopped at the first page with no next link or with the rows seen reaching the shelf count, and no earlier page met that condition. |
| Scrape.BackfillEffect | goodreads_to_sqlite/utils.py:80-118 | `scrape_data` reads at least one page and changes nothing but candidates' read dates. Its count is the number of dated candidate rows on the pages it read, one for each date it set. |
| Scrape.BackfillSets | goodreads_to_sqlite/utils.py:80-118 | After a successful `scrape_data`, a review named by a dated candidate row on the pages read has as its read date the parse of the last such row's date, with nothing else changed. A review no such row names is unchanged. |
| Scrape.BackfillLeavesOthers | goodreads_to_sqlite/utils.py:81-86 | A review with a read date already, or not on the "read" shelf, is left exactly as it was. |
| Scrape.BackfillStops | goodreads_to_sqlite/utils.py:97-118 | The shelf count comes from page 1. The pass stops at the first page meeting the stop condition and reads every page before it. |
| Scrape.FillPage | goodreads_to_sqlite/utils.py:107-116 | The loop over a page's rows computes exactly `FillRows`. |
| Scrape.ScrapeData | goodreads_to_sqlite/utils.py:80-120 | The page loop computes exactly the pass `Backfill` specifies. |
| Fetch.ReadListPage | goodreads_to_sqlite/utils.py:45-48 | A listing page's `end` and `total` are what `int` reads from the attributes, and fail when `int` does. |
| Fetch.NoLibrary | goodreads_to_sqlite/utils.py:36-38 | The walk starts with three empty dictionaries. |
| Fetch.AuthorsOf | goodreads_to_sqlite/utils.py:58-62 | A book's author list is the normalised author elements, in order. |
| Fetch.Load | goodreads_to_sqlite/utils.py:64-68 | A review element loads exactly when its book and its review normalise, and it yields those two records. |
| Fetch.AddReviewsFails | goodreads_to_sqlite/utils.py:54-69 | A page of review elements is recorded exactly when every element loads. |
| Fetch.AddReviewsWrites | goodreads_to_sqlite/utils.py:54-69 | Recording a page writes, in order, every book author, every book and every review into the dictionaries by id. |
| Fetch.AuthorWritesAppend | goodreads_to_sqlite/utils.py:58-62 | The author writes of two runs of elements are those of the first, then those of the second. |
| Fetch.WritesAppend | goodreads_to_sqlite/utils.py:64-68 | The book and review writes of two runs are those of the first, then those of the second. |
| Fetch.WalkFrom | goodreads_to_sqlite/utils.py:41-69 | A walk that has not ended requests at least one more page and no more than were answered. One that has ended requests nothing. |
| Fetch.Walk | goodreads_to_sqlite/utils.py:34-69 | The dictionaries of a successful walk are well formed. |
| Fetch.AddReviewsValid | goodreads_to_sqlite/utils.py:54-69 | Recording review elements keeps each dictionary's order in step with its keys. |
| Fetch.WalkFromReadable | goodreads_to_sqlite/utils.py:41-48 | Every page a successful walk requested was served with integer attributes. |
| Fetch.WalkFromLast | goodreads_to_sqlite/utils.py:41-48 | The last page requested has `end >= total`. |
| Fetch.WalkFromGoesOn | goodreads_to_sqlite/utils.py:41-48 | No page before the last has `end >= total`. |
| Fetch.WalkStops | goodreads_to_sqlite/utils.py:34-48 | Page 1 is always requested. Pages are requested in order, and the walk stops right after the first page whose `end` reaches its `total`. |
| Fetch.WalkFromWrites | goodreads_to_sqlite/utils.py:41-69 | A walk writes, in order, the authors, books and reviews of exactly the pages it read. |
| Fetch.ReviewWritesLastWins | goodreads_to_sqlite/utils.py:67-68 | A review id is present exactly when some element carries it, and it holds the review of the last such element. |
| Fetch.BookWritesLastWins | goodreads_to_sqlite/utils.py:64-65 | A book id is present exactly when some element's book carries it, and it holds that book from the last such element. |
| Fetch.WalkReviewsLastWins | goodreads_to_sqlite/utils.py:54-68 | After the walk, the reviews dictionary holds exactly the review ids read, each with the review of its last element. |
| Fetch.WalkBooksLastWins | goodreads_to_sqlite/utils.py:54-65 | After the walk, the books dictionary holds exactly the book ids read, each with the book of its last element. |
| Fetch.LoadedRecords | goodreads_to_sqlite/utils.py:64-68 | A loaded book and review are the normalised book, with the element's authors, and the normalised review. |
| Fetch.WalkTwoOfThree | goodreads_to_sqlite/utils.py:41-48 | With `end` at 200, 400 and 400 of a `total` of 400, pages 1 and 2 are requested and page 3 is not. |
| Fetch.RecordAuthors | goodreads_to_sqlite/utils.py:58-62 | The loop over a book's authors stores each under its id, in order, and collects the book's author list. |
| Fetch.RecordReview | goodreads_to_sqlite/utils.py:55-68 | The body of the review loop records exactly what `AddReview` specifies. |
| Fetch.RecordPage | goodreads_to_sqlite/utils.py:54-69 | The loop over a page's review elements records exactly what `AddReviews` specifies. |
| Fetch.AddReviewsErrAt | goodreads_to_sqlite/utils.py:54-69 | A failing element fails the whole page with its error. |
| Fetch.WalkListing | goodreads_to_sqlite/utils.py:34-70 | The `while end < total` loop computes exactly the walk `Walk` specifies. |
| Fetch.Backfilled | goodreads_to_sqlite/utils.py:72-73 | Without scraping, the reviews are kept as they are. With scraping, they are what the pass leaves, still well formed. |
| Fetch.FetchBooks | goodreads_to_sqlite/utils.py:20-77 | `fetch_books` succeeds exactly when the walk (and, when asked, the pass) succeeds. It then leaves the tables that saving authors, books and reviews gives. On failure it fails with the same error and writes nothing. |
| Fetch.LoaderKeepsIds | goodreads_to_sqlite/utils.py:64-68 | A loaded book and review carry the ids of the element they came from. |
| Fetch.WalkFromKeyed | goodreads_to_sqlite/utils.py:54-69 | Every dictionary of the walk files each record under that record's own id. |
| Fetch.SaveReviewValues | goodreads_to_sqlite/utils.py:77 | Saving `list(reviews.values())` gives each review id exactly the row of its review. |
| Fetch.SaveBookValues | goodreads_to_sqlite/utils.py:76 | Saving `list(books.values())` gives each book id exactly the row of its book. |
| Fetch.SaveLibraryRows | goodreads_to_sqlite/utils.py:75-77 | After the three saves, the reviews table holds exactly the old ids and the collected ones, each collected id with its review's row. Every collected book has its row. |
| Fetch.BackfilledKeyed | goodreads_to_sqlite/utils.py:72-73 | The scraping pass keeps every review filed under its own id. |
| Fetch.FetchBooksSaves | goodreads_to_sqlite/utils.py:20-77 | After a successful `fetch_books`, the reviews table holds its old ids and every collected review id. Each collected id has the row of its final review, read date included when the pass set it. Every collected book is stored with its row. |

## Left out

- HTTP: `requests.get` and `raise_for_status` are replaced by the answered responses passed in. A non-success status is an `HttpStatus` error, and asking past the answers is a `NoResponse` error. Request parameters (the API key, `per_page`, `sort`), URLs of the listing requests and the rate-limit courtesy are not modelled.
- XML and HTML parsing (ElementTree, BeautifulSoup) are left out. Elements are datatypes whose texts are `Option<string>`, and ids are plain strings. A missing id element, which would raise `AttributeError`, is not modelled.
- A listing page's `end` and `total` attributes are read once, as `Fetch.ReadListPage` states. The selected-shelf label of the HTML listing is also read once, as `Scrape.ReadListingPage` states. The walks then work on the parsed values.
- `dateutil.parser.parse` is a function parameter from text and a default to an optional timestamp. A failure to parse is the `NotADate` error. For `maybe_date`, the default is the current time, passed in as `today`. The scraping pass uses 1 January 2019.
- PyStr.ParseInt: reads an optional sign and ASCII digits between whitespace. Underscores between digits and non-ASCII digits, which Python's `int` also accepts, are not modelled. `str.isdigit` is likewise modelled for ASCII digits only.
- `dt.date` is modelled as a check that the date is a valid proleptic Gregorian date with a year from 1 to 9999, with the `InvalidCalendarDate` error.
- `tqdm` progress bars and `click` output are left out. The one value the source reads back from a progress bar, `progress_bar.n` in `scrape_data`, is modelled as the count of rows seen. The count `scrape_data` echoes is returned as `Scraped.count`.
- `error()` and `sys.exit` are the fatal errors `NoUserId`, `AlternateLinkMissing` and `PrivateShelves`.
- sqlite-utils internals are left out. A table is a map from primary key to row, and `insert(..., replace=True)` and `insert_all` are insert-or-replace. `m2m` upserts the related records and adds join pairs. Column types, `alter=True`, foreign keys and the `last_pk` return value are not modelled.
- Users.FetchUserId: models the evident intent of the database branch, a stored user with that username answering with its id. With sqlite-utils 2.4, `get` takes a primary key and not keyword arguments, so `get(username=...)` raises `TypeError`, which nothing there catches. Even a returned row would be a dict, on which `user.id` raises `AttributeError`.
- Users.FetchUserAndShelves: models the evident intent of `get(id=...)`, a lookup of the stored user by id. With sqlite-utils 2.4 that call raises `TypeError`, which `suppress` swallows, so as released the user is always fetched online and the freshness test is never reached.
- `scrape_data` mutates the reviews dictionary in place. `Scrape.ScrapeData` instead returns the updated dictionary, which `Fetch.FetchBooks` saves. Aliasing between the caller's dictionary and the saved one is therefore not modelled.
- `save_books` and `save_reviews` pop `authors` and `shelves` off each record before inserting it. This is modelled by the row projections `BookRowOf` and `ReviewRowOf`. The records kept in the dictionaries are not mutated.
- `cli.py` and `setup.py` are not part of this model. They hold command-line plumbing, prompts, JSON token files and packaging metadata.

## Findings

| source | as written | input that shows it | evidently intended | confidence | as-written member | corrected member |
|---|---|---|---|---|---|---|
| goodreads_to_sqlite/utils.py:250-251 | `rows_where` returns a lazy generator, which is always truthy. So `and shelves` never fails, and a complete user row is served from the database even with no stored shelf. | A users table holding `{"id": "1", "name": "Ann", "username": "ann"}` and a shelves table with no row for user 1 | Answer from the database only when the user row is complete and at least one shelf of the user is stored; otherwise fetch again | not executed | Users.CachedAsWritten, Users.CachedAsWrittenIgnoresShelves, Users.FetchUserAndShelves | Users.Cached, Users.SavedUserIsFresh, Users.FetchFreshUserAndShelves |
