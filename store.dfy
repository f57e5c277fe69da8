/** The SQLite database the exporter writes: one table per entity, keyed by id,
    and the two join tables that `m2m` fills. Every write is an
    insert-or-replace by primary key, so a table is a map from id to row. */
module Store {
  import opened Base
  import opened Dicts
  import opened Records

  datatype UserRow = UserRow(id: string, name: Option<string>, username: Option<string>)

  datatype ShelfRow = ShelfRow(id: string, name: Option<string>, userId: string)

  /** A book record once `authors` has been popped off it. */
  datatype BookRow = BookRow(
    id: string,
    isbn: Option<string>,
    isbn13: Option<string>,
    title: Option<string>,
    series: Option<string>,
    seriesPosition: Option<string>,
    pages: Option<string>,
    publisher: Option<string>,
    publicationDate: Option<Date>,
    description: Option<string>,
    imageUrl: Option<string>)

  /** A review record once `shelves` has been popped off it; absent date keys are NULL columns. */
  datatype ReviewRow = ReviewRow(
    id: string,
    bookId: string,
    userId: string,
    rating: Option<int>,
    text: string,
    dates: map<DateField, Timestamp>)

  /** The contents of every table at one moment. */
  datatype Tables = Tables(
    users: map<string, UserRow>,
    shelves: map<string, ShelfRow>,
    authors: map<string, Author>,
    books: map<string, BookRow>,
    bookAuthors: set<(string, string)>,
    reviews: map<string, ReviewRow>,
    reviewShelves: set<(string, string)>)

  const NoTables := Tables(map[], map[], map[], map[], {}, map[], {})

  /** A user as `fetch_user_and_shelves` assembles it before saving. */
  datatype UserRecord = UserRecord(id: string, name: Option<string>, username: Option<string>, shelves: seq<ShelfRecord>)

  datatype ShelfRecord = ShelfRecord(id: string, name: Option<string>)

  function BookRowOf(b: Book): BookRow {
    BookRow(b.id, b.isbn, b.isbn13, b.title, b.series, b.seriesPosition, b.pages, b.publisher,
            b.publicationDate, b.description, b.imageUrl)
  }

  function ReviewRowOf(r: Review): ReviewRow {
    ReviewRow(r.id, r.bookId, r.userId, r.rating, r.text, r.dates)
  }

  function ShelfRowOf(s: ShelfEntry): ShelfRow {
    ShelfRow(s.id, s.name, s.userId)
  }

  /** Each author keyed by its id, in order. */
  function AuthorPairs(authors: seq<Author>): (r: seq<(string, Author)>)
    ensures |r| == |authors|
    ensures forall i :: 0 <= i < |r| ==> r[i] == (authors[i].id, authors[i])
  {
    seq(|authors|, i requires 0 <= i < |authors| => (authors[i].id, authors[i]))
  }

  /** Each shelf of a review as a shelves-table row keyed by its id, in order. */
  function ShelfPairs(shelves: seq<ShelfEntry>): (r: seq<(string, ShelfRow)>)
    ensures |r| == |shelves|
    ensures forall i :: 0 <= i < |r| ==> r[i] == (shelves[i].id, ShelfRowOf(shelves[i]))
  {
    seq(|shelves|, i requires 0 <= i < |shelves| => (shelves[i].id, ShelfRowOf(shelves[i])))
  }

  /** The join rows linking one record to each of its related ids. */
  function Links(id: string, related: seq<string>): (r: set<(string, string)>)
    ensures forall p :: p in r <==> p.0 == id && p.1 in related
  {
    set x | x in related :: (id, x)
  }

  function AuthorIds(authors: seq<Author>): (r: seq<string>)
    ensures |r| == |authors| && forall i :: 0 <= i < |r| ==> r[i] == authors[i].id
  {
    seq(|authors|, i requires 0 <= i < |authors| => authors[i].id)
  }

  function ShelfIds(shelves: seq<ShelfEntry>): (r: seq<string>)
    ensures |r| == |shelves| && forall i :: 0 <= i < |r| ==> r[i] == shelves[i].id
  {
    seq(|shelves|, i requires 0 <= i < |shelves| => shelves[i].id)
  }

  // ------------------------------------------------------------ the writes

  /** `save_authors`: one batch insert-or-replace. */
  function SaveAuthorsTo(t: Tables, authors: seq<Author>): Tables {
    t.(authors := Upserts(t.authors, AuthorPairs(authors)))
  }

  /** One iteration of `save_books`: the book row, then its authors through `m2m`,
      which writes each author record and links it to the book. */
  function SaveBookTo(t: Tables, b: Book): Tables {
    t.(books := t.books[b.id := BookRowOf(b)],
       authors := Upserts(t.authors, AuthorPairs(b.authors)),
       bookAuthors := t.bookAuthors + Links(b.id, AuthorIds(b.authors)))
  }

  function SaveBooksTo(t: Tables, books: seq<Book>): Tables {
    if books == [] then t else SaveBookTo(SaveBooksTo(t, books[..|books| - 1]), books[|books| - 1])
  }

  /** One iteration of `save_reviews`: the review row, then its shelves through `m2m`. */
  function SaveReviewTo(t: Tables, r: Review): Tables {
    t.(reviews := t.reviews[r.id := ReviewRowOf(r)],
       shelves := Upserts(t.shelves, ShelfPairs(r.shelves)),
       reviewShelves := t.reviewShelves + Links(r.id, ShelfIds(r.shelves)))
  }

  function SaveReviewsTo(t: Tables, reviews: seq<Review>): Tables {
    if reviews == [] then t else SaveReviewTo(SaveReviewsTo(t, reviews[..|reviews| - 1]), reviews[|reviews| - 1])
  }

  /** `save_shelf`: keeps only `id` and `name`, and adds the owning user's id. */
  function SaveShelfTo(t: Tables, shelf: ShelfRecord, userId: string): Tables {
    t.(shelves := t.shelves[shelf.id := ShelfRow(shelf.id, shelf.name, userId)])
  }

  function SaveShelvesTo(t: Tables, shelves: seq<ShelfRecord>, userId: string): Tables {
    if shelves == [] then t else SaveShelfTo(SaveShelvesTo(t, shelves[..|shelves| - 1], userId), shelves[|shelves| - 1], userId)
  }

  /** `save_user`: keeps only `id`, `name` and `username`, then saves each shelf under the user's id. */
  function SaveUserTo(t: Tables, user: UserRecord): Tables {
    SaveShelvesTo(t.(users := t.users[user.id := UserRow(user.id, user.name, user.username)]), user.shelves, user.id)
  }

  // ----------------------------------------------------- whole-batch forms

  function BookRowPairs(books: seq<Book>): (r: seq<(string, BookRow)>)
    ensures |r| == |books|
    ensures forall i :: 0 <= i < |r| ==> r[i] == (books[i].id, BookRowOf(books[i]))
  {
    seq(|books|, i requires 0 <= i < |books| => (books[i].id, BookRowOf(books[i])))
  }

  /** The authors of every book, one book after the other. */
  function BooksAuthorPairs(books: seq<Book>): seq<(string, Author)> {
    if books == [] then [] else BooksAuthorPairs(books[..|books| - 1]) + AuthorPairs(books[|books| - 1].authors)
  }

  function BookLinks(books: seq<Book>): set<(string, string)> {
    if books == [] then {} else BookLinks(books[..|books| - 1]) + Links(books[|books| - 1].id, AuthorIds(books[|books| - 1].authors))
  }

  /** Saving a list of books, table by table: the book rows by last write, the author
      records of all books by last write, every author link of every book; nothing else. */
  lemma {:induction false} SaveBooksTables(t: Tables, books: seq<Book>)
    ensures SaveBooksTo(t, books) == t.(books := Upserts(t.books, BookRowPairs(books)),
                                        authors := Upserts(t.authors, BooksAuthorPairs(books)),
                                        bookAuthors := t.bookAuthors + BookLinks(books))
    decreases |books|
  {
    if books != [] {
      var init := books[..|books| - 1];
      var last := books[|books| - 1];
      SaveBooksTables(t, init);
      var r := SaveBooksTo(t, books);
      var pairs := BookRowPairs(books);
      assert r.books == Upserts(t.books, pairs) by {
        assert pairs[..|pairs| - 1] == BookRowPairs(init);
      }
      assert r.authors == Upserts(t.authors, BooksAuthorPairs(books)) by {
        UpsertsAppend(t.authors, BooksAuthorPairs(init), AuthorPairs(last.authors));
      }
      assert r.bookAuthors == t.bookAuthors + BookLinks(books);
    }
  }

  /** Saving the same books twice leaves the tables as saving them once. */
  lemma SaveBooksIdempotent(t: Tables, books: seq<Book>)
    ensures SaveBooksTo(SaveBooksTo(t, books), books) == SaveBooksTo(t, books)
  {
    var once := SaveBooksTo(t, books);
    SaveBooksTables(t, books);
    SaveBooksTables(once, books);
    UpsertsIdempotent(t.books, BookRowPairs(books));
    UpsertsIdempotent(t.authors, BooksAuthorPairs(books));
  }

  /** After saving books, a book id has a row exactly when it had one or some saved book
      carries it, and the row is that of the last such book. */
  lemma SaveBooksLastWins(t: Tables, books: seq<Book>, id: string)
    ensures id in SaveBooksTo(t, books).books <==> id in t.books || exists i :: 0 <= i < |books| && books[i].id == id
    ensures forall i :: 0 <= i < |books| && books[i].id == id && (forall j :: i < j < |books| ==> books[j].id != id)
                        ==> SaveBooksTo(t, books).books[id] == BookRowOf(books[i])
  {
    SaveBooksTables(t, books);
    var pairs := BookRowPairs(books);
    UpsertsLastWins(t.books, pairs, id);
    if exists i :: 0 <= i < |books| && books[i].id == id {
      var i :| 0 <= i < |books| && books[i].id == id;
      assert pairs[i].0 == id;
    }
    forall i | 0 <= i < |books| && books[i].id == id && (forall j :: i < j < |books| ==> books[j].id != id)
      ensures SaveBooksTo(t, books).books[id] == BookRowOf(books[i])
    {
      assert LastWriteAt(pairs, id, i);
    }
  }

  /** Saving a book whose id is already stored replaces its row: one row, the new contents. */
  lemma SaveBookTwice(t: Tables, b1: Book, b2: Book)
    requires b1.id == b2.id
    ensures SaveBookTo(SaveBookTo(t, b1), b2).books == t.books[b2.id := BookRowOf(b2)]
  {
  }

  function ReviewRowPairs(reviews: seq<Review>): (r: seq<(string, ReviewRow)>)
    ensures |r| == |reviews|
    ensures forall i :: 0 <= i < |r| ==> r[i] == (reviews[i].id, ReviewRowOf(reviews[i]))
  {
    seq(|reviews|, i requires 0 <= i < |reviews| => (reviews[i].id, ReviewRowOf(reviews[i])))
  }

  /** The shelves of every review, one review after the other. */
  function ReviewsShelfPairs(reviews: seq<Review>): seq<(string, ShelfRow)> {
    if reviews == [] then [] else ReviewsShelfPairs(reviews[..|reviews| - 1]) + ShelfPairs(reviews[|reviews| - 1].shelves)
  }

  function ReviewLinks(reviews: seq<Review>): set<(string, string)> {
    if reviews == [] then {}
    else ReviewLinks(reviews[..|reviews| - 1]) + Links(reviews[|reviews| - 1].id, ShelfIds(reviews[|reviews| - 1].shelves))
  }

  /** Saving a list of reviews, table by table. */
  lemma {:induction false} SaveReviewsTables(t: Tables, reviews: seq<Review>)
    ensures SaveReviewsTo(t, reviews) == t.(reviews := Upserts(t.reviews, ReviewRowPairs(reviews)),
                                            shelves := Upserts(t.shelves, ReviewsShelfPairs(reviews)),
                                            reviewShelves := t.reviewShelves + ReviewLinks(reviews))
    decreases |reviews|
  {
    if reviews != [] {
      var init := reviews[..|reviews| - 1];
      var last := reviews[|reviews| - 1];
      SaveReviewsTables(t, init);
      var r := SaveReviewsTo(t, reviews);
      var pairs := ReviewRowPairs(reviews);
      assert r.reviews == Upserts(t.reviews, pairs) by {
        assert pairs[..|pairs| - 1] == ReviewRowPairs(init);
      }
      assert r.shelves == Upserts(t.shelves, ReviewsShelfPairs(reviews)) by {
        UpsertsAppend(t.shelves, ReviewsShelfPairs(init), ShelfPairs(last.shelves));
      }
      assert r.reviewShelves == t.reviewShelves + ReviewLinks(reviews);
    }
  }

  /** Saving the same reviews twice leaves the tables as saving them once. */
  lemma SaveReviewsIdempotent(t: Tables, reviews: seq<Review>)
    ensures SaveReviewsTo(SaveReviewsTo(t, reviews), reviews) == SaveReviewsTo(t, reviews)
  {
    var once := SaveReviewsTo(t, reviews);
    SaveReviewsTables(t, reviews);
    SaveReviewsTables(once, reviews);
    UpsertsIdempotent(t.reviews, ReviewRowPairs(reviews));
    UpsertsIdempotent(t.shelves, ReviewsShelfPairs(reviews));
  }

  /** After saving reviews, a review id has a row exactly when it had one or some saved
      review carries it, and the row is that of the last such review. */
  lemma SaveReviewsLastWins(t: Tables, reviews: seq<Review>, id: string)
    ensures id in SaveReviewsTo(t, reviews).reviews <==> id in t.reviews || exists i :: 0 <= i < |reviews| && reviews[i].id == id
    ensures forall i :: 0 <= i < |reviews| && reviews[i].id == id && (forall j :: i < j < |reviews| ==> reviews[j].id != id)
                        ==> SaveReviewsTo(t, reviews).reviews[id] == ReviewRowOf(reviews[i])
  {
    SaveReviewsTables(t, reviews);
    var pairs := ReviewRowPairs(reviews);
    UpsertsLastWins(t.reviews, pairs, id);
    if exists i :: 0 <= i < |reviews| && reviews[i].id == id {
      var i :| 0 <= i < |reviews| && reviews[i].id == id;
      assert pairs[i].0 == id;
    }
    forall i | 0 <= i < |reviews| && reviews[i].id == id && (forall j :: i < j < |reviews| ==> reviews[j].id != id)
      ensures SaveReviewsTo(t, reviews).reviews[id] == ReviewRowOf(reviews[i])
    {
      assert LastWriteAt(pairs, id, i);
    }
  }

  /** Saving a user's shelves writes one row per shelf, tagged with the user's id. */
  lemma {:induction false} SaveShelvesTables(t: Tables, shelves: seq<ShelfRecord>, userId: string)
    ensures var r := SaveShelvesTo(t, shelves, userId);
      && (forall id :: id in r.shelves <==> id in t.shelves || exists i :: 0 <= i < |shelves| && shelves[i].id == id)
      && (forall i :: 0 <= i < |shelves| ==> shelves[i].id in r.shelves && r.shelves[shelves[i].id].userId == userId)
      && (forall id | id in r.shelves && id !in t.shelves :: r.shelves[id].userId == userId)
    decreases |shelves|
  {
    if shelves != [] {
      var init := shelves[..|shelves| - 1];
      var last := shelves[|shelves| - 1];
      SaveShelvesTables(t, init, userId);
      var before := SaveShelvesTo(t, init, userId).shelves;
      var after := SaveShelvesTo(t, shelves, userId).shelves;
      assert after == before[last.id := ShelfRow(last.id, last.name, userId)];
      assert forall i :: 0 <= i < |init| ==> init[i] == shelves[i];
    }
  }

  /** Each of a user's shelves as a shelves-table row keyed by its id, in order. */
  function UserShelfPairs(shelves: seq<ShelfRecord>, userId: string): (r: seq<(string, ShelfRow)>)
    ensures |r| == |shelves|
    ensures forall i :: 0 <= i < |r| ==> r[i] == (shelves[i].id, ShelfRow(shelves[i].id, shelves[i].name, userId))
  {
    seq(|shelves|, i requires 0 <= i < |shelves| => (shelves[i].id, ShelfRow(shelves[i].id, shelves[i].name, userId)))
  }

  /** Saving a user's shelves one by one upserts their rows in order. */
  lemma {:induction false} SaveShelvesUpserts(t: Tables, shelves: seq<ShelfRecord>, userId: string)
    ensures SaveShelvesTo(t, shelves, userId).shelves == Upserts(t.shelves, UserShelfPairs(shelves, userId))
    decreases |shelves|
  {
    if shelves != [] {
      var init := shelves[..|shelves| - 1];
      var last := shelves[|shelves| - 1];
      var row := ShelfRow(last.id, last.name, userId);
      SaveShelvesUpserts(t, init, userId);
      assert UserShelfPairs(shelves, userId) == UserShelfPairs(init, userId) + [(last.id, row)];
      UpsertsSnoc(t.shelves, UserShelfPairs(init, userId), last.id, row);
    }
  }

  /** After saving a user's shelves, a saved shelf id holds the name of the last shelf
      saved with it and the user's id; an id no shelf carries keeps its old row. */
  lemma SaveShelvesLastWins(t: Tables, shelves: seq<ShelfRecord>, userId: string, id: string)
    ensures forall i :: 0 <= i < |shelves| && shelves[i].id == id && (forall j :: i < j < |shelves| ==> shelves[j].id != id) ==>
      (var r := SaveShelvesTo(t, shelves, userId).shelves; id in r && r[id] == ShelfRow(id, shelves[i].name, userId))
    ensures (forall i :: 0 <= i < |shelves| ==> shelves[i].id != id) && id in t.shelves ==>
      var r := SaveShelvesTo(t, shelves, userId).shelves;
      id in r && r[id] == t.shelves[id]
  {
    var pairs := UserShelfPairs(shelves, userId);
    SaveShelvesUpserts(t, shelves, userId);
    UpsertsLastWins(t.shelves, pairs, id);
    forall i | 0 <= i < |shelves| && shelves[i].id == id && (forall j :: i < j < |shelves| ==> shelves[j].id != id)
      ensures var r := SaveShelvesTo(t, shelves, userId).shelves; id in r && r[id] == ShelfRow(id, shelves[i].name, userId)
    {
      assert pairs[i].0 == id;
      assert LastWriteAt(pairs, id, i);
    }
    if (forall i :: 0 <= i < |shelves| ==> shelves[i].id != id) && id in t.shelves {
      forall i | 0 <= i < |pairs| ensures pairs[i].0 != id { assert pairs[i].0 == shelves[i].id; }
    }
  }

  /** Saving a user's shelves changes no table but the shelves table. */
  lemma {:induction false} SaveShelvesOnlyShelves(t: Tables, shelves: seq<ShelfRecord>, userId: string)
    ensures SaveShelvesTo(t, shelves, userId) == t.(shelves := SaveShelvesTo(t, shelves, userId).shelves)
    decreases |shelves|
  {
    if shelves != [] {
      SaveShelvesOnlyShelves(t, shelves[..|shelves| - 1], userId);
    }
  }

  // --------------------------------------------------------- the database

  /** The open database, updated in place by every save. */
  class Database {
    var users: map<string, UserRow>
    var shelves: map<string, ShelfRow>
    var authors: map<string, Author>
    var books: map<string, BookRow>
    var bookAuthors: set<(string, string)>
    var reviews: map<string, ReviewRow>
    var reviewShelves: set<(string, string)>

    function Snapshot(): Tables
      reads this
    {
      Tables(users, shelves, authors, books, bookAuthors, reviews, reviewShelves)
    }

    /** A new, empty database. */
    constructor()
      ensures Snapshot() == NoTables
    {
      users, shelves, authors, books, bookAuthors, reviews, reviewShelves :=
        map[], map[], map[], map[], {}, map[], {};
    }

    /** `save_authors`. */
    method SaveAuthors(list: seq<Author>)
      modifies this
      ensures Snapshot() == SaveAuthorsTo(old(Snapshot()), list)
    {
      authors := Upserts(authors, AuthorPairs(list));
    }

    /** `save_books`: each book row in turn, then its author links. */
    method SaveBooks(list: seq<Book>)
      modifies this
      ensures Snapshot() == SaveBooksTo(old(Snapshot()), list)
    {
      for i := 0 to |list|
        invariant Snapshot() == SaveBooksTo(old(Snapshot()), list[..i])
      {
        var book := list[i];
        assert list[..i + 1][..i] == list[..i];
        books := books[book.id := BookRowOf(book)];
        authors := Upserts(authors, AuthorPairs(book.authors));
        bookAuthors := bookAuthors + Links(book.id, AuthorIds(book.authors));
      }
      assert list[..|list|] == list;
    }

    /** `save_reviews`: each review row in turn, then its shelf links. */
    method SaveReviews(list: seq<Review>)
      modifies this
      ensures Snapshot() == SaveReviewsTo(old(Snapshot()), list)
    {
      for i := 0 to |list|
        invariant Snapshot() == SaveReviewsTo(old(Snapshot()), list[..i])
      {
        var review := list[i];
        assert list[..i + 1][..i] == list[..i];
        reviews := reviews[review.id := ReviewRowOf(review)];
        shelves := Upserts(shelves, ShelfPairs(review.shelves));
        reviewShelves := reviewShelves + Links(review.id, ShelfIds(review.shelves));
      }
      assert list[..|list|] == list;
    }

    /** `save_shelf`. */
    method SaveShelf(shelf: ShelfRecord, userId: string)
      modifies this
      ensures Snapshot() == SaveShelfTo(old(Snapshot()), shelf, userId)
    {
      shelves := shelves[shelf.id := ShelfRow(shelf.id, shelf.name, userId)];
    }

    /** `save_user`: the user row, then each of its shelves. */
    method SaveUser(user: UserRecord)
      modifies this
      ensures Snapshot() == SaveUserTo(old(Snapshot()), user)
    {
      users := users[user.id := UserRow(user.id, user.name, user.username)];
      ghost var start := Snapshot();
      for i := 0 to |user.shelves|
        invariant Snapshot() == SaveShelvesTo(start, user.shelves[..i], user.id)
      {
        assert user.shelves[..i + 1][..i] == user.shelves[..i];
        SaveShelf(user.shelves[i], user.id);
      }
      assert user.shelves[..|user.shelves|] == user.shelves;
    }
  }
}
