/** `fetch_books`: walk the paged XML review listing of one user, normalise every
    review, its book and the book's authors into three id-keyed dictionaries,
    optionally back-fill read dates from the HTML listing, then save authors,
    books and reviews. */
module Fetch {
  import opened Base
  import opened PyStr
  import opened Dicts
  import opened Records
  import opened Store
  import opened Scrape

  /** One page of the XML review listing: the `end` and `total` attributes of its
      `<reviews>` element as `int` reads them, and the `<review>` elements it holds. */
  datatype ListPage = ListPage(end: Result<int>, total: Result<int>, reviews: seq<RawReview>)

  /** A page as the XML gives it, its two attributes still text. */
  function ReadListPage(end: string, total: string, reviews: seq<RawReview>): (page: ListPage)
    ensures page.end.Ok? <==> ParseInt(end).Some?
    ensures page.end.Ok? ==> ParseInt(end) == Some(page.end.value)
    ensures page.total.Ok? <==> ParseInt(total).Some?
    ensures page.total.Ok? ==> ParseInt(total) == Some(page.total.value)
    ensures page.reviews == reviews
  {
    ListPage(IntOf(end), IntOf(total), reviews)
  }

  /** The three dictionaries the walk fills, keyed by author, book and review id. */
  datatype Library = Library(authors: Dict<string, Author>, books: Dict<string, Book>, reviews: Dict<string, Review>) {
    ghost predicate Valid() {
      authors.Valid() && books.Valid() && reviews.Valid()
    }
  }

  function NoLibrary(): (lib: Library)
    ensures lib.Valid()
    ensures lib.authors.entries == map[] && lib.books.entries == map[] && lib.reviews.entries == map[]
  {
    Library(EmptyDict(), EmptyDict(), EmptyDict())
  }

  /** The authors of one book, in document order. */
  function AuthorsOf(raws: seq<RawAuthor>): (r: seq<Author>)
    ensures |r| == |raws|
    ensures forall i :: 0 <= i < |r| ==> r[i] == AuthorFromData(raws[i])
  {
    seq(|raws|, i requires 0 <= i < |raws| => AuthorFromData(raws[i]))
  }

  /** What the walk makes of one `<review>` element: its book, normalised with the
      book's authors, and then the review itself. */
  function Load(raw: RawReview, userId: string, parse: DateParser, today: Timestamp): (r: Result<(Book, Review)>)
    ensures r.Ok? <==> BookFromData(raw.book, AuthorsOf(raw.book.authors)).Ok? && ReviewFromData(raw, userId, parse, today).Ok?
    ensures BookFromData(raw.book, AuthorsOf(raw.book.authors)).Err? ==> r == Err(BookFromData(raw.book, AuthorsOf(raw.book.authors)).error)
    ensures r.Ok? ==> r.value.0 == BookFromData(raw.book, AuthorsOf(raw.book.authors)).value
    ensures r.Ok? ==> r.value.1 == ReviewFromData(raw, userId, parse, today).value
  {
    var book :- BookFromData(raw.book, AuthorsOf(raw.book.authors));
    var review :- ReviewFromData(raw, userId, parse, today);
    Ok((book, review))
  }

  /** The normaliser of review elements, for one user, date parser and current time. */
  type Loader = RawReview -> Result<(Book, Review)>

  function LoaderFor(userId: string, parse: DateParser, today: Timestamp): (load: Loader)
    ensures forall raw :: load(raw) == Load(raw, userId, parse, today)
  {
    raw => Load(raw, userId, parse, today)
  }

  /** One `<review>` element: its book's authors are recorded first (they cannot fail),
      then the book, then the review; a book or review that does not normalise ends the
      walk. */
  function AddReview(lib: Library, raw: RawReview, load: Loader): Result<Library>
  {
    var authors := PutAll(lib.authors, AuthorPairs(AuthorsOf(raw.book.authors)));
    var loaded :- load(raw);
    Ok(Library(authors, lib.books.Put(raw.book.id, loaded.0), lib.reviews.Put(raw.id, loaded.1)))
  }

  /** The `<review>` elements of one page, in order. */
  function AddReviews(lib: Library, raws: seq<RawReview>, load: Loader): Result<Library>
  {
    if raws == [] then Ok(lib)
    else
      var mid :- AddReviews(lib, raws[..|raws| - 1], load);
      AddReview(mid, raws[|raws| - 1], load)
  }

  // ------------------------------------------------- what a page contributes

  /** Every review element of `raws` normalises. */
  predicate AllLoad(raws: seq<RawReview>, load: Loader) {
    forall i | 0 <= i < |raws| :: load(raws[i]).Ok?
  }

  /** The author records of every review's book, one review after the other. */
  function AuthorWrites(raws: seq<RawReview>): seq<(string, Author)> {
    if raws == [] then [] else AuthorWrites(raws[..|raws| - 1]) + AuthorPairs(AuthorsOf(raws[|raws| - 1].book.authors))
  }

  /** The book record of every review, keyed by the book id. */
  function BookWrites(raws: seq<RawReview>, load: Loader): (r: seq<(string, Book)>)
    requires AllLoad(raws, load)
    ensures |r| == |raws|
    ensures forall i | 0 <= i < |raws| :: r[i] == (raws[i].book.id, load(raws[i]).value.0)
  {
    seq(|raws|, i requires 0 <= i < |raws| && AllLoad(raws, load) => (raws[i].book.id, load(raws[i]).value.0))
  }

  /** The review record of every review, keyed by the review id. */
  function ReviewWrites(raws: seq<RawReview>, load: Loader): (r: seq<(string, Review)>)
    requires AllLoad(raws, load)
    ensures |r| == |raws|
    ensures forall i | 0 <= i < |raws| :: r[i] == (raws[i].id, load(raws[i]).value.1)
  {
    seq(|raws|, i requires 0 <= i < |raws| && AllLoad(raws, load) => (raws[i].id, load(raws[i]).value.1))
  }

  /** A page of reviews is recorded exactly when every one of its review elements normalises. */
  lemma {:induction false} AddReviewsFails(lib: Library, raws: seq<RawReview>, load: Loader)
    ensures AddReviews(lib, raws, load).Ok? <==> AllLoad(raws, load)
    decreases |raws|
  {
    if raws != [] {
      var init := raws[..|raws| - 1];
      AddReviewsFails(lib, init, load);
      assert forall i | 0 <= i < |init| :: init[i] == raws[i];
      assert forall i | 0 <= i < |raws| :: i < |init| || raws[i] == raws[|raws| - 1];
    }
  }

  /** The books and reviews written for a run of review elements are those of all but
      its last element, then its last element's. */
  lemma WritesLast(raws: seq<RawReview>, load: Loader)
    requires raws != [] && AllLoad(raws, load)
    ensures AllLoad(raws[..|raws| - 1], load)
    ensures var last := raws[|raws| - 1];
      BookWrites(raws, load) == BookWrites(raws[..|raws| - 1], load) + [(last.book.id, load(last).value.0)]
    ensures var last := raws[|raws| - 1];
      ReviewWrites(raws, load) == ReviewWrites(raws[..|raws| - 1], load) + [(last.id, load(last).value.1)]
  {
    var init := raws[..|raws| - 1];
    assert AllLoad(init, load) by {
      forall i | 0 <= i < |init| ensures load(init[i]).Ok? { assert init[i] == raws[i]; }
    }
  }

  /** The last review element of a run is recorded into what the run before it left. */
  lemma AddReviewsLast(lib: Library, raws: seq<RawReview>, load: Loader)
    requires raws != []
    requires AddReviews(lib, raws[..|raws| - 1], load).Ok? && load(raws[|raws| - 1]).Ok?
    ensures AddReviews(lib, raws, load).Ok?
    ensures var mid := AddReviews(lib, raws[..|raws| - 1], load).value;
      var last := raws[|raws| - 1];
      && AddReviews(lib, raws, load).value.authors == PutAll(mid.authors, AuthorPairs(AuthorsOf(last.book.authors)))
      && AddReviews(lib, raws, load).value.books == mid.books.Put(last.book.id, load(last).value.0)
      && AddReviews(lib, raws, load).value.reviews == mid.reviews.Put(last.id, load(last).value.1)
  {
    AddReviewCases(AddReviews(lib, raws[..|raws| - 1], load).value, raws[|raws| - 1], load);
  }

  /** Recording a page is writing, key by key and in order, every book author, every book
      and every review of the page into the dictionaries: a later write of the same id
      replaces an earlier one. */
  lemma {:induction false} AddReviewsWrites(lib: Library, raws: seq<RawReview>, load: Loader)
    requires AllLoad(raws, load)
    ensures AddReviews(lib, raws, load).Ok?
    ensures AddReviews(lib, raws, load).value.authors.entries == Upserts(lib.authors.entries, AuthorWrites(raws))
    ensures AddReviews(lib, raws, load).value.books.entries == Upserts(lib.books.entries, BookWrites(raws, load))
    ensures AddReviews(lib, raws, load).value.reviews.entries == Upserts(lib.reviews.entries, ReviewWrites(raws, load))
    decreases |raws|
  {
    AddReviewsFails(lib, raws, load);
    if raws != [] {
      var init := raws[..|raws| - 1];
      var last := raws[|raws| - 1];
      WritesLast(raws, load);
      AddReviewsWrites(lib, init, load);
      var mid := AddReviews(lib, init, load).value;
      var r := AddReviews(lib, raws, load).value;
      assert r.authors == PutAll(mid.authors, AuthorPairs(AuthorsOf(last.book.authors)))
          && r.books == mid.books.Put(last.book.id, load(last).value.0)
          && r.reviews == mid.reviews.Put(last.id, load(last).value.1) by {
        AddReviewsLast(lib, raws, load);
      }
      assert r.authors.entries == Upserts(lib.authors.entries, AuthorWrites(raws)) by {
        UpsertsAppend(lib.authors.entries, AuthorWrites(init), AuthorPairs(AuthorsOf(last.book.authors)));
      }
      assert r.books.entries == Upserts(lib.books.entries, BookWrites(raws, load)) by {
        WritesLast(raws, load);
        UpsertsSnoc(lib.books.entries, BookWrites(init, load), last.book.id, load(last).value.0);
      }
      assert r.reviews.entries == Upserts(lib.reviews.entries, ReviewWrites(raws, load)) by {
        WritesLast(raws, load);
        UpsertsSnoc(lib.reviews.entries, ReviewWrites(init, load), last.id, load(last).value.1);
      }
    }
  }

  /** The authors written for two runs of review elements are those of the first, then of the second. */
  lemma {:induction false} AuthorWritesAppend(a: seq<RawReview>, b: seq<RawReview>)
    ensures AuthorWrites(a + b) == AuthorWrites(a) + AuthorWrites(b)
    decreases |b|
  {
    if b == [] {
      assert a + b == a;
    } else {
      var init := b[..|b| - 1];
      var last := b[|b| - 1];
      assert (a + b)[..|a + b| - 1] == a + init;
      assert (a + b)[|a + b| - 1] == last;
      AuthorWritesAppend(a, init);
      calc {
        AuthorWrites(a + b);
        AuthorWrites(a + init) + AuthorPairs(AuthorsOf(last.book.authors));
        (AuthorWrites(a) + AuthorWrites(init)) + AuthorPairs(AuthorsOf(last.book.authors));
        AuthorWrites(a) + (AuthorWrites(init) + AuthorPairs(AuthorsOf(last.book.authors)));
        AuthorWrites(a) + AuthorWrites(b);
      }
    }
  }

  /** The books and reviews written for two runs of review elements are those of the
      first, then of the second. */
  lemma WritesAppend(a: seq<RawReview>, b: seq<RawReview>, load: Loader)
    requires AllLoad(a, load) && AllLoad(b, load)
    ensures AllLoad(a + b, load)
    ensures BookWrites(a + b, load) == BookWrites(a, load) + BookWrites(b, load)
    ensures ReviewWrites(a + b, load) == ReviewWrites(a, load) + ReviewWrites(b, load)
  {
    forall i | 0 <= i < |a + b| ensures load((a + b)[i]).Ok? {
      if i < |a| { assert (a + b)[i] == a[i]; } else { assert (a + b)[i] == b[i - |a|]; }
    }
  }

  // ------------------------------------------------------------- the walk

  /** The listing from page `p + 1` on, `end` and `total` being the attributes of the
      page before. Page `p + 1` is `responses[p]`; asking for a page past the end of
      `responses` ends the walk with NoResponse. The result holds the dictionaries and
      the number of pages requested. */
  function WalkFrom(responses: seq<Response<ListPage>>, p: nat, end: int, total: int, lib: Library, load: Loader)
    : (r: Result<(Library, nat)>)
    ensures r.Ok? && end < total ==> p < r.value.1 <= |responses|
    ensures r.Ok? && end >= total ==> r.value == (lib, p)
    decreases |responses| - p
  {
    if end >= total then Ok((lib, p))
    else if p >= |responses| then Err(NoResponse(p + 1))
    else
      match responses[p]
      case HttpFailure(status) => Err(HttpStatus(status))
      case Served(page) =>
        var end' :- page.end;
        var total' :- page.total;
        var lib' :- AddReviews(lib, page.reviews, load);
        WalkFrom(responses, p + 1, end', total', lib', load)
  }

  /** The whole walk: it starts with `end = -1` and `total = 0`, so page 1 is always requested. */
  function Walk(responses: seq<Response<ListPage>>, load: Loader): (r: Result<(Library, nat)>)
    ensures r.Ok? ==> r.value.0.Valid()
  {
    WalkFromValid(responses, 0, -1, 0, NoLibrary(), load);
    WalkFrom(responses, 0, -1, 0, NoLibrary(), load)
  }

  /** Recording review elements keeps every dictionary's key order in step with its keys. */
  lemma {:induction false} AddReviewsValid(lib: Library, raws: seq<RawReview>, load: Loader)
    requires lib.Valid()
    ensures AddReviews(lib, raws, load).Ok? ==> AddReviews(lib, raws, load).value.Valid()
    decreases |raws|
  {
    if raws != [] {
      AddReviewsValid(lib, raws[..|raws| - 1], load);
    }
  }

  lemma {:induction false} WalkFromValid(responses: seq<Response<ListPage>>, p: nat, end: int, total: int, lib: Library, load: Loader)
    requires lib.Valid()
    ensures WalkFrom(responses, p, end, total, lib, load).Ok? ==> WalkFrom(responses, p, end, total, lib, load).value.0.Valid()
    decreases |responses| - p
  {
    WalkFromCases(responses, p, end, total, lib, load);
    if end < total && p < |responses| && responses[p].Served? {
      var page := responses[p].page;
      AddReviewsValid(lib, page.reviews, load);
      if page.end.Ok? && page.total.Ok? && AddReviews(lib, page.reviews, load).Ok? {
        WalkFromValid(responses, p + 1, page.end.value, page.total.value, AddReviews(lib, page.reviews, load).value, load);
      }
    }
  }

  /** A served page whose attributes read as integers and that ends the listing: `end >= total`. */
  predicate LastPage(r: Response<ListPage>) {
    r.Served? && r.page.end.Ok? && r.page.total.Ok? && r.page.end.value >= r.page.total.value
  }

  /** A page that is served and whose attributes read as integers. */
  predicate Readable(r: Response<ListPage>) {
    r.Served? && r.page.end.Ok? && r.page.total.Ok?
  }

  /** The review elements of pages `from` up to `to`, in order. */
  function ReviewsRead(responses: seq<Response<ListPage>>, from: nat, to: nat): seq<RawReview>
    requires from <= to <= |responses|
    decreases |responses| - from
  {
    if from == to then []
    else (if responses[from].Served? then responses[from].page.reviews else []) + ReviewsRead(responses, from + 1, to)
  }

  /** The cases of one step of the walk: the listing is done, the page is past the
      end, its request failed, an attribute is not an integer, a review element fails,
      or the page is recorded and the walk goes on. */
  lemma WalkFromCases(responses: seq<Response<ListPage>>, p: nat, end: int, total: int, lib: Library, load: Loader)
    ensures end >= total ==> WalkFrom(responses, p, end, total, lib, load) == Ok((lib, p))
    ensures end < total && p >= |responses| ==> WalkFrom(responses, p, end, total, lib, load) == Err(NoResponse(p + 1))
    ensures end < total && p < |responses| && responses[p].HttpFailure? ==>
      WalkFrom(responses, p, end, total, lib, load) == Err(HttpStatus(responses[p].status))
    ensures end < total && p < |responses| && responses[p].Served? && responses[p].page.end.Err? ==>
      WalkFrom(responses, p, end, total, lib, load) == Err(responses[p].page.end.error)
    ensures end < total && p < |responses| && responses[p].Served? && responses[p].page.end.Ok?
            && responses[p].page.total.Err? ==>
      WalkFrom(responses, p, end, total, lib, load) == Err(responses[p].page.total.error)
    ensures end < total && p < |responses| && responses[p].Served? && responses[p].page.end.Ok?
            && responses[p].page.total.Ok? && AddReviews(lib, responses[p].page.reviews, load).Err? ==>
      WalkFrom(responses, p, end, total, lib, load) == Err(AddReviews(lib, responses[p].page.reviews, load).error)
    ensures end < total && p < |responses| && responses[p].Served? && responses[p].page.end.Ok?
            && responses[p].page.total.Ok? && AddReviews(lib, responses[p].page.reviews, load).Ok? ==>
      WalkFrom(responses, p, end, total, lib, load)
      == WalkFrom(responses, p + 1, responses[p].page.end.value, responses[p].page.total.value,
                  AddReviews(lib, responses[p].page.reviews, load).value, load)
  {
  }

  /** A walk that has not stopped and succeeds read its page `p + 1` in full and goes on
      from the next page with that page's attributes. */
  lemma WalkFromNext(responses: seq<Response<ListPage>>, p: nat, end: int, total: int, lib: Library, load: Loader)
    requires end < total
    requires WalkFrom(responses, p, end, total, lib, load).Ok?
    ensures p < |responses| && Readable(responses[p])
    ensures AddReviews(lib, responses[p].page.reviews, load).Ok?
    ensures WalkFrom(responses, p, end, total, lib, load)
      == WalkFrom(responses, p + 1, responses[p].page.end.value, responses[p].page.total.value,
                  AddReviews(lib, responses[p].page.reviews, load).value, load)
  {
    WalkFromCases(responses, p, end, total, lib, load);
    AddReviewsFails(lib, responses[p].page.reviews, load);
  }

  /** A walk that succeeds from page `p + 1` read every page it requested in full. */
  lemma {:induction false} WalkFromReadable(responses: seq<Response<ListPage>>, p: nat, end: int, total: int, lib: Library, load: Loader)
    requires end < total
    requires WalkFrom(responses, p, end, total, lib, load).Ok?
    ensures forall q | p <= q < WalkFrom(responses, p, end, total, lib, load).value.1 :: Readable(responses[q])
    decreases |responses| - p
  {
    WalkFromNext(responses, p, end, total, lib, load);
    var page := responses[p].page;
    var n := WalkFrom(responses, p, end, total, lib, load).value.1;
    if page.end.value < page.total.value {
      var lib' := AddReviews(lib, page.reviews, load).value;
      assert n == WalkFrom(responses, p + 1, page.end.value, page.total.value, lib', load).value.1;
      WalkFromReadable(responses, p + 1, page.end.value, page.total.value, lib', load);
      forall q | p <= q < n
        ensures Readable(responses[q])
      {
        if q != p {
          assert p + 1 <= q < WalkFrom(responses, p + 1, page.end.value, page.total.value, lib', load).value.1;
        }
      }
    } else {
      assert n == p + 1;
      forall q | p <= q < n
        ensures Readable(responses[q])
      {
        assert q == p;
      }
    }
  }

  /** The last page a successful walk requested ends the listing. */
  lemma {:induction false} WalkFromLast(responses: seq<Response<ListPage>>, p: nat, end: int, total: int, lib: Library, load: Loader)
    requires end < total
    requires WalkFrom(responses, p, end, total, lib, load).Ok?
    ensures LastPage(responses[WalkFrom(responses, p, end, total, lib, load).value.1 - 1])
    decreases |responses| - p
  {
    WalkFromNext(responses, p, end, total, lib, load);
    var page := responses[p].page;
    if page.end.value < page.total.value {
      WalkFromLast(responses, p + 1, page.end.value, page.total.value, AddReviews(lib, page.reviews, load).value, load);
    }
  }

  /** No page before the last one a successful walk requested ends the listing. */
  lemma {:induction false} WalkFromGoesOn(responses: seq<Response<ListPage>>, p: nat, end: int, total: int, lib: Library, load: Loader)
    requires end < total
    requires WalkFrom(responses, p, end, total, lib, load).Ok?
    ensures forall q | p <= q < WalkFrom(responses, p, end, total, lib, load).value.1 - 1 :: !LastPage(responses[q])
    decreases |responses| - p
  {
    WalkFromNext(responses, p, end, total, lib, load);
    var page := responses[p].page;
    if page.end.value < page.total.value {
      WalkFromGoesOn(responses, p + 1, page.end.value, page.total.value, AddReviews(lib, page.reviews, load).value, load);
    }
  }

  /** The walk requests page 1, then page after page, and stops right after the first page
      whose `end` reaches its `total`. */
  lemma WalkStops(responses: seq<Response<ListPage>>, load: Loader)
    requires Walk(responses, load).Ok?
    ensures var n := Walk(responses, load).value.1;
      && 1 <= n <= |responses|
      && (forall q | 0 <= q < n :: Readable(responses[q]))
      && LastPage(responses[n - 1])
      && forall q | 0 <= q < n - 1 :: !LastPage(responses[q])
  {
    WalkFromReadable(responses, 0, -1, 0, NoLibrary(), load);
    WalkFromLast(responses, 0, -1, 0, NoLibrary(), load);
    WalkFromGoesOn(responses, 0, -1, 0, NoLibrary(), load);
  }

  /** What a walk records: every author, book and review of the pages it read, written
      in order, so that a later write of the same id replaces an earlier one. */
  lemma {:induction false} WalkFromWrites(responses: seq<Response<ListPage>>, p: nat, end: int, total: int, lib: Library, load: Loader)
    requires p <= |responses|
    requires WalkFrom(responses, p, end, total, lib, load).Ok?
    ensures var n := WalkFrom(responses, p, end, total, lib, load).value.1;
      p <= n <= |responses| && AllLoad(ReviewsRead(responses, p, n), load)
    ensures var (lib', n) := WalkFrom(responses, p, end, total, lib, load).value;
      lib'.authors.entries == Upserts(lib.authors.entries, AuthorWrites(ReviewsRead(responses, p, n)))
    ensures var (lib', n) := WalkFrom(responses, p, end, total, lib, load).value;
      lib'.books.entries == Upserts(lib.books.entries, BookWrites(ReviewsRead(responses, p, n), load))
    ensures var (lib', n) := WalkFrom(responses, p, end, total, lib, load).value;
      lib'.reviews.entries == Upserts(lib.reviews.entries, ReviewWrites(ReviewsRead(responses, p, n), load))
    decreases |responses| - p
  {
    WalkFromCases(responses, p, end, total, lib, load);
    if end < total {
      var page := responses[p].page;
      AddReviewsFails(lib, page.reviews, load);
      AddReviewsWrites(lib, page.reviews, load);
      var mid := AddReviews(lib, page.reviews, load).value;
      WalkFromWrites(responses, p + 1, page.end.value, page.total.value, mid, load);
      var n := WalkFrom(responses, p, end, total, lib, load).value.1;
      var rest := ReviewsRead(responses, p + 1, n);
      assert ReviewsRead(responses, p, n) == page.reviews + rest;
      WritesAppend(page.reviews, rest, load);
      AuthorWritesAppend(page.reviews, rest);
      UpsertsAppend(lib.authors.entries, AuthorWrites(page.reviews), AuthorWrites(rest));
      UpsertsAppend(lib.books.entries, BookWrites(page.reviews, load), BookWrites(rest, load));
      UpsertsAppend(lib.reviews.entries, ReviewWrites(page.reviews, load), ReviewWrites(rest, load));
    } else {
      assert ReviewsRead(responses, p, p) == [];
    }
  }

  /** Upserting the review writes of `raws` into an empty table: an id is present exactly
      when some element carries it, with the record of the last such element. */
  lemma ReviewWritesLastWins(raws: seq<RawReview>, load: Loader, m: map<string, Review>, id: string)
    requires AllLoad(raws, load) && m == Upserts(map[], ReviewWrites(raws, load))
    ensures id in m <==> exists i | 0 <= i < |raws| :: raws[i].id == id
    ensures forall i | 0 <= i < |raws| && raws[i].id == id && (forall j | i < j < |raws| :: raws[j].id != id) ::
              m[id] == load(raws[i]).value.1
  {
    var writes := ReviewWrites(raws, load);
    UpsertsLastWins(map[], writes, id);
    if exists i | 0 <= i < |raws| :: raws[i].id == id {
      var i :| 0 <= i < |raws| && raws[i].id == id;
      assert writes[i].0 == id;
    }
    forall i | 0 <= i < |raws| && raws[i].id == id && (forall j | i < j < |raws| :: raws[j].id != id)
      ensures m[id] == load(raws[i]).value.1
    {
      assert LastWriteAt(writes, id, i);
    }
  }

  /** The same for the book writes. */
  lemma BookWritesLastWins(raws: seq<RawReview>, load: Loader, m: map<string, Book>, id: string)
    requires AllLoad(raws, load) && m == Upserts(map[], BookWrites(raws, load))
    ensures id in m <==> exists i | 0 <= i < |raws| :: raws[i].book.id == id
    ensures forall i | 0 <= i < |raws| && raws[i].book.id == id && (forall j | i < j < |raws| :: raws[j].book.id != id) ::
              m[id] == load(raws[i]).value.0
  {
    var writes := BookWrites(raws, load);
    UpsertsLastWins(map[], writes, id);
    if exists i | 0 <= i < |raws| :: raws[i].book.id == id {
      var i :| 0 <= i < |raws| && raws[i].book.id == id;
      assert writes[i].0 == id;
    }
    forall i | 0 <= i < |raws| && raws[i].book.id == id && (forall j | i < j < |raws| :: raws[j].book.id != id)
      ensures m[id] == load(raws[i]).value.0
    {
      assert LastWriteAt(writes, id, i);
    }
  }

  /** Last write wins: after the walk, each review id read maps to the record of the last
      review element carrying that id, and the review dictionary holds nothing else. */
  lemma WalkReviewsLastWins(responses: seq<Response<ListPage>>, load: Loader, id: string)
    requires Walk(responses, load).Ok?
    ensures var lib := Walk(responses, load).value.0;
      var raws := ReviewsRead(responses, 0, Walk(responses, load).value.1);
      && AllLoad(raws, load)
      && (id in lib.reviews.entries <==> exists i | 0 <= i < |raws| :: raws[i].id == id)
      && forall i | 0 <= i < |raws| && raws[i].id == id && (forall j | i < j < |raws| :: raws[j].id != id) ::
           lib.reviews.entries[id] == load(raws[i]).value.1
  {
    var lib := Walk(responses, load).value.0;
    var raws := ReviewsRead(responses, 0, Walk(responses, load).value.1);
    assert AllLoad(raws, load) && lib.reviews.entries == Upserts(map[], ReviewWrites(raws, load)) by {
      WalkFromWrites(responses, 0, -1, 0, NoLibrary(), load);
    }
    ReviewWritesLastWins(raws, load, lib.reviews.entries, id);
  }

  /** Last write wins for books too: a book id read maps to the book of the last review
      element whose book carries that id. */
  lemma WalkBooksLastWins(responses: seq<Response<ListPage>>, load: Loader, id: string)
    requires Walk(responses, load).Ok?
    ensures var lib := Walk(responses, load).value.0;
      var raws := ReviewsRead(responses, 0, Walk(responses, load).value.1);
      && AllLoad(raws, load)
      && (id in lib.books.entries <==> exists i | 0 <= i < |raws| :: raws[i].book.id == id)
      && forall i | 0 <= i < |raws| && raws[i].book.id == id && (forall j | i < j < |raws| :: raws[j].book.id != id) ::
           lib.books.entries[id] == load(raws[i]).value.0
  {
    var lib := Walk(responses, load).value.0;
    var raws := ReviewsRead(responses, 0, Walk(responses, load).value.1);
    assert AllLoad(raws, load) && lib.books.entries == Upserts(map[], BookWrites(raws, load)) by {
      WalkFromWrites(responses, 0, -1, 0, NoLibrary(), load);
    }
    BookWritesLastWins(raws, load, lib.books.entries, id);
  }

  /** With the program's normaliser, the review stored under an id is the normalised
      form of the last review element carrying it, and its book is the normalised form of
      that element's book with the element's authors. */
  lemma LoadedRecords(raw: RawReview, userId: string, parse: DateParser, today: Timestamp)
    requires LoaderFor(userId, parse, today)(raw).Ok?
    ensures ReviewFromData(raw, userId, parse, today).Ok?
    ensures LoaderFor(userId, parse, today)(raw).value.1 == ReviewFromData(raw, userId, parse, today).value
    ensures BookFromData(raw.book, AuthorsOf(raw.book.authors)).Ok?
    ensures LoaderFor(userId, parse, today)(raw).value.0 == BookFromData(raw.book, AuthorsOf(raw.book.authors)).value
  {
  }

  /** Three pages whose `end` attributes read 200, 400 and 400 of a `total` of 400: the
      walk requests pages 1 and 2 and never page 3. */
  lemma WalkTwoOfThree(load: Loader)
    ensures var responses := [Served(ReadListPage(ShowNat(200), ShowNat(400), [])),
                              Served(ReadListPage(ShowNat(400), ShowNat(400), [])),
                              Served(ReadListPage(ShowNat(400), ShowNat(400), []))];
      Walk(responses, load) == Ok((NoLibrary(), 2))
  {
    var responses := [Served(ReadListPage(ShowNat(200), ShowNat(400), [])),
                      Served(ReadListPage(ShowNat(400), ShowNat(400), [])),
                      Served(ReadListPage(ShowNat(400), ShowNat(400), []))];
    var lib := NoLibrary();
    assert responses[0].page.end == Ok(200) && responses[0].page.total == Ok(400) by { IntOfShowNat(200); IntOfShowNat(400); }
    assert responses[1].page.end == Ok(400) && responses[1].page.total == Ok(400) by { IntOfShowNat(400); }
    assert AddReviews(lib, [], load) == Ok(lib);
    assert WalkFrom(responses, 2, 400, 400, lib, load) == Ok((lib, 2));
    assert WalkFrom(responses, 1, 200, 400, lib, load) == WalkFrom(responses, 2, 400, 400, lib, load) by {
      WalkFromCases(responses, 1, 200, 400, lib, load);
    }
    assert WalkFrom(responses, 0, -1, 0, lib, load) == WalkFrom(responses, 1, 200, 400, lib, load) by {
      WalkFromCases(responses, 0, -1, 0, lib, load);
    }
  }

  // ------------------------------------------------------- as the source runs

  /** One more author element: its record is appended to the author list and stored. */
  lemma RecordAuthorsStep(authors: Dict<string, Author>, raws: seq<RawAuthor>, j: nat)
    requires j < |raws|
    ensures AuthorsOf(raws)[..j + 1] == AuthorsOf(raws)[..j] + [AuthorFromData(raws[j])]
    ensures PutAll(authors, AuthorPairs(AuthorsOf(raws)[..j + 1]))
         == PutAll(authors, AuthorPairs(AuthorsOf(raws)[..j])).Put(raws[j].id, AuthorFromData(raws[j]))
  {
    var before, after := AuthorsOf(raws)[..j], AuthorsOf(raws)[..j + 1];
    assert after == before + [AuthorFromData(raws[j])];
    assert AuthorPairs(after)[..j] == AuthorPairs(before);
  }

  /** The loop over a book's `<author>` elements: each author record is stored under
      its id, in document order, and kept for the book's author list. */
  method RecordAuthors(authors: Dict<string, Author>, raws: seq<RawAuthor>)
    returns (stored: Dict<string, Author>, bookAuthors: seq<Author>)
    ensures bookAuthors == AuthorsOf(raws)
    ensures stored == PutAll(authors, AuthorPairs(AuthorsOf(raws)))
  {
    stored := authors;
    bookAuthors := [];
    for j := 0 to |raws|
      invariant bookAuthors == AuthorsOf(raws)[..j]
      invariant stored == PutAll(authors, AuthorPairs(bookAuthors))
    {
      var author := AuthorFromData(raws[j]);
      RecordAuthorsStep(authors, raws, j);
      stored := stored.Put(raws[j].id, author);
      bookAuthors := bookAuthors + [author];
    }
    assert AuthorsOf(raws)[..|raws|] == AuthorsOf(raws);
  }

  /** What one review element does to the dictionaries, whatever the loader. */
  lemma AddReviewCases(lib: Library, raw: RawReview, load: Loader)
    ensures load(raw).Err? ==> AddReview(lib, raw, load).Err? && AddReview(lib, raw, load).error == load(raw).error
    ensures load(raw).Ok? ==> AddReview(lib, raw, load).Ok?
    ensures load(raw).Ok? ==>
              AddReview(lib, raw, load).value.authors == PutAll(lib.authors, AuthorPairs(AuthorsOf(raw.book.authors)))
    ensures load(raw).Ok? ==> AddReview(lib, raw, load).value.books == lib.books.Put(raw.book.id, load(raw).value.0)
    ensures load(raw).Ok? ==> AddReview(lib, raw, load).value.reviews == lib.reviews.Put(raw.id, load(raw).value.1)
  {
  }

  /** The program's loader fails with the book's error, else with the review's, else
      gives both records. */
  lemma LoaderCases(raw: RawReview, userId: string, parse: DateParser, today: Timestamp)
    ensures var book := BookFromData(raw.book, AuthorsOf(raw.book.authors));
      book.Err? ==>
        LoaderFor(userId, parse, today)(raw).Err? && LoaderFor(userId, parse, today)(raw).error == book.error
    ensures var book := BookFromData(raw.book, AuthorsOf(raw.book.authors));
      var review := ReviewFromData(raw, userId, parse, today);
      book.Ok? && review.Err? ==>
        LoaderFor(userId, parse, today)(raw).Err? && LoaderFor(userId, parse, today)(raw).error == review.error
    ensures var book := BookFromData(raw.book, AuthorsOf(raw.book.authors));
      var review := ReviewFromData(raw, userId, parse, today);
      book.Ok? && review.Ok? ==>
        LoaderFor(userId, parse, today)(raw).Ok?
        && LoaderFor(userId, parse, today)(raw).value.0 == book.value
        && LoaderFor(userId, parse, today)(raw).value.1 == review.value
  {
  }

  /** The body of the loop over one page's `<review>` elements: the book's authors, then
      the book, then the review. */
  method RecordReview(lib: Library, raw: RawReview, userId: string, parse: DateParser, today: Timestamp)
    returns (r: Result<Library>)
    ensures r == AddReview(lib, raw, LoaderFor(userId, parse, today))
  {
    var authors, bookAuthors := RecordAuthors(lib.authors, raw.book.authors);
    LoaderCases(raw, userId, parse, today);
    AddReviewCases(lib, raw, LoaderFor(userId, parse, today));
    var book := BookFromData(raw.book, bookAuthors);
    if book.Err? {
      return Err(book.error);
    }
    var review := GetReviewFromData(raw, userId, parse, today);
    if review.Err? {
      return Err(review.error);
    }
    return Ok(Library(authors, lib.books.Put(raw.book.id, book.value), lib.reviews.Put(raw.id, review.value)));
  }

  /** The loop over one page's `<review>` elements. */
  method RecordPage(lib: Library, raws: seq<RawReview>, userId: string, parse: DateParser, today: Timestamp)
    returns (r: Result<Library>)
    ensures r == AddReviews(lib, raws, LoaderFor(userId, parse, today))
  {
    ghost var load := LoaderFor(userId, parse, today);
    var current := lib;
    for i := 0 to |raws|
      invariant AddReviews(lib, raws[..i], load) == Ok(current)
    {
      AddReviewsStep(lib, raws, i, load);
      var next := RecordReview(current, raws[i], userId, parse, today);
      if next.Err? {
        AddReviewsErrAt(lib, raws, i + 1, load);
        return Err(next.error);
      }
      current := next.value;
    }
    assert raws[..|raws|] == raws;
    return Ok(current);
  }

  /** One more review element of the page. */
  lemma AddReviewsStep(lib: Library, raws: seq<RawReview>, i: nat, load: Loader)
    requires i < |raws|
    ensures AddReviews(lib, raws[..i], load).Err? ==>
              AddReviews(lib, raws[..i + 1], load) == AddReviews(lib, raws[..i], load)
    ensures AddReviews(lib, raws[..i], load).Ok? ==>
              AddReviews(lib, raws[..i + 1], load) == AddReview(AddReviews(lib, raws[..i], load).value, raws[i], load)
  {
    assert raws[..i + 1][..i] == raws[..i];
  }

  /** A failure among the first `n` review elements is the failure of the whole page. */
  lemma AddReviewsErrAt(lib: Library, raws: seq<RawReview>, n: nat, load: Loader)
    requires n <= |raws| && AddReviews(lib, raws[..n], load).Err?
    ensures AddReviews(lib, raws, load) == AddReviews(lib, raws[..n], load)
  {
    var done, rest := raws[..n], raws[n..];
    assert done + rest == raws;
    AddReviewsErrExtends(lib, done, rest, load);
  }

  /** Once a review element fails, the page fails with that error whatever follows. */
  lemma {:induction false} AddReviewsErrExtends(lib: Library, raws: seq<RawReview>, more: seq<RawReview>, load: Loader)
    requires AddReviews(lib, raws, load).Err?
    ensures AddReviews(lib, raws + more, load) == AddReviews(lib, raws, load)
    decreases |more|
  {
    if more == [] {
      assert raws + more == raws;
    } else {
      assert (raws + more)[..|raws + more| - 1] == raws + more[..|more| - 1];
      AddReviewsErrExtends(lib, raws, more[..|more| - 1], load);
    }
  }

  /** The `while end < total` loop of `fetch_books`: request the next page, read its
      `end` and `total`, record its review elements. */
  method WalkListing(responses: seq<Response<ListPage>>, userId: string, parse: DateParser, today: Timestamp)
    returns (r: Result<(Library, nat)>)
    ensures r == Walk(responses, LoaderFor(userId, parse, today))
  {
    var end := -1;
    var total := 0;
    var page: nat := 0;
    var lib := NoLibrary();
    while end < total
      invariant page <= |responses|
      invariant WalkFrom(responses, page, end, total, lib, LoaderFor(userId, parse, today))
                == Walk(responses, LoaderFor(userId, parse, today))
      decreases |responses| - page
    {
      WalkFromCases(responses, page, end, total, lib, LoaderFor(userId, parse, today));
      page := page + 1;
      if page > |responses| {
        return Err(NoResponse(page));
      }
      var response := responses[page - 1];
      if response.HttpFailure? {
        return Err(HttpStatus(response.status));
      }
      var listing := response.page;
      if listing.end.Err? {
        return Err(listing.end.error);
      }
      if listing.total.Err? {
        return Err(listing.total.error);
      }
      end, total := listing.end.value, listing.total.value;
      var recorded := RecordPage(lib, listing.reviews, userId, parse, today);
      if recorded.Err? {
        return Err(recorded.error);
      }
      lib := recorded.value;
    }
    WalkFromCases(responses, page, end, total, lib, LoaderFor(userId, parse, today));
    return Ok((lib, page));
  }

  // ------------------------------------------------------------ fetch_books

  /** The reviews after the optional `scrape_data` pass, which sets read dates in place. */
  function Backfilled(reviews: Dict<string, Review>, scrape: bool, shelfPages: seq<Response<ListingPage>>,
                      parse: DateParser): (r: Result<Dict<string, Review>>)
    requires reviews.Valid()
    ensures r.Ok? ==> r.value.Valid()
    ensures !scrape ==> r == Ok(reviews)
  {
    if scrape then
      var scraped :- Backfill(reviews, shelfPages, parse);
      Ok(scraped.reviews)
    else
      Ok(reviews)
  }

  /** The tables once `fetch_books` has run: every listing page read, the read dates
      backfilled when asked for, then authors, books and reviews saved in that order.
      Any failure raises before the first save, so nothing is written. */
  function FetchBooksTo(t: Tables, responses: seq<Response<ListPage>>, userId: string, parse: DateParser,
                        today: Timestamp, scrape: bool, shelfPages: seq<Response<ListingPage>>): Result<Tables>
  {
    var walked :- Walk(responses, LoaderFor(userId, parse, today));
    var lib := walked.0;
    var reviews :- Backfilled(lib.reviews, scrape, shelfPages, parse);
    Ok(SaveLibraryTo(t, lib, reviews))
  }

  /** `fetch_books` against an open database. */
  method FetchBooks(db: Database, responses: seq<Response<ListPage>>, userId: string, parse: DateParser,
                    today: Timestamp, scrape: bool, shelfPages: seq<Response<ListingPage>>)
    returns (r: Result<()>)
    modifies db
    ensures r.Ok? <==> FetchBooksTo(old(db.Snapshot()), responses, userId, parse, today, scrape, shelfPages).Ok?
    ensures r.Ok? ==> db.Snapshot() == FetchBooksTo(old(db.Snapshot()), responses, userId, parse, today, scrape, shelfPages).value
    ensures r.Err? ==> r.error == FetchBooksTo(old(db.Snapshot()), responses, userId, parse, today, scrape, shelfPages).error
    ensures r.Err? ==> db.Snapshot() == old(db.Snapshot())
  {
    var walked := WalkListing(responses, userId, parse, today);
    if walked.Err? {
      return Err(walked.error);
    }
    var lib := walked.value.0;
    var reviews := lib.reviews;
    if scrape {
      var scraped := ScrapeData(reviews, shelfPages, parse);
      if scraped.Err? {
        return Err(scraped.error);
      }
      reviews := scraped.value.reviews;
    }
    assert Backfilled(lib.reviews, scrape, shelfPages, parse) == Ok(reviews);
    db.SaveAuthors(lib.authors.Values());
    db.SaveBooks(lib.books.Values());
    db.SaveReviews(reviews.Values());
    return Ok(());
  }

  // ----------------------------------------------- what fetch_books leaves behind

  /** Every dictionary of the walk files each record under that record's own id. */
  ghost predicate Keyed(lib: Library) {
    && (forall k | k in lib.authors.entries :: lib.authors.entries[k].id == k)
    && (forall k | k in lib.books.entries :: lib.books.entries[k].id == k)
    && (forall k | k in lib.reviews.entries :: lib.reviews.entries[k].id == k)
  }

  /** A loader whose book and review carry the ids of the element they came from. */
  ghost predicate KeepsIds(load: Loader) {
    forall raw | load(raw).Ok? :: load(raw).value.0.id == raw.book.id && load(raw).value.1.id == raw.id
  }

  lemma LoaderKeepsIds(userId: string, parse: DateParser, today: Timestamp)
    ensures KeepsIds(LoaderFor(userId, parse, today))
  {
    forall raw | LoaderFor(userId, parse, today)(raw).Ok?
      ensures LoaderFor(userId, parse, today)(raw).value.0.id == raw.book.id
      ensures LoaderFor(userId, parse, today)(raw).value.1.id == raw.id
    {
      var book := BookFromData(raw.book, AuthorsOf(raw.book.authors));
      var review := ReviewFromData(raw, userId, parse, today);
      assert book.Ok? && review.Ok?;
    }
  }

  lemma AddReviewKeyed(lib: Library, raw: RawReview, load: Loader)
    requires Keyed(lib) && KeepsIds(load)
    ensures AddReview(lib, raw, load).Ok? ==> Keyed(AddReview(lib, raw, load).value)
  {
    var pairs := AuthorPairs(AuthorsOf(raw.book.authors));
    UpsertsKeyed(lib.authors.entries, pairs);
  }

  /** Upserting authors each under its own id keeps every author filed under its id. */
  lemma {:induction false} UpsertsKeyed(m: map<string, Author>, kvs: seq<(string, Author)>)
    requires forall k | k in m :: m[k].id == k
    requires forall i | 0 <= i < |kvs| :: kvs[i].1.id == kvs[i].0
    ensures forall k | k in Upserts(m, kvs) :: Upserts(m, kvs)[k].id == k
    decreases |kvs|
  {
    if kvs != [] {
      UpsertsKeyed(m, kvs[..|kvs| - 1]);
    }
  }

  lemma {:induction false} AddReviewsKeyed(lib: Library, raws: seq<RawReview>, load: Loader)
    requires Keyed(lib) && KeepsIds(load)
    ensures AddReviews(lib, raws, load).Ok? ==> Keyed(AddReviews(lib, raws, load).value)
    decreases |raws|
  {
    if raws != [] {
      var init := raws[..|raws| - 1];
      AddReviewsKeyed(lib, init, load);
      if AddReviews(lib, init, load).Ok? {
        AddReviewKeyed(AddReviews(lib, init, load).value, raws[|raws| - 1], load);
      }
    }
  }

  lemma {:induction false} WalkFromKeyed(responses: seq<Response<ListPage>>, p: nat, end: int, total: int, lib: Library, load: Loader)
    requires Keyed(lib) && KeepsIds(load)
    ensures WalkFrom(responses, p, end, total, lib, load).Ok? ==> Keyed(WalkFrom(responses, p, end, total, lib, load).value.0)
    decreases |responses| - p
  {
    WalkFromCases(responses, p, end, total, lib, load);
    if end < total && p < |responses| && responses[p].Served? {
      var page := responses[p].page;
      AddReviewsKeyed(lib, page.reviews, load);
      if page.end.Ok? && page.total.Ok? && AddReviews(lib, page.reviews, load).Ok? {
        WalkFromKeyed(responses, p + 1, page.end.value, page.total.value, AddReviews(lib, page.reviews, load).value, load);
      }
    }
  }

  /** Saving `list(d.values())` of a dictionary that files each review under its id
      gives each of its ids exactly the row of its review. */
  lemma SaveReviewValues(t: Tables, d: Dict<string, Review>)
    requires d.Valid()
    requires forall k | k in d.entries :: d.entries[k].id == k
    ensures forall id :: id in SaveReviewsTo(t, d.Values()).reviews <==> id in t.reviews || id in d.entries
    ensures forall id | id in d.entries :: SaveReviewsTo(t, d.Values()).reviews[id] == ReviewRowOf(d.entries[id])
  {
    var vs := d.Values();
    forall id
      ensures id in SaveReviewsTo(t, vs).reviews <==> id in t.reviews || id in d.entries
      ensures id in d.entries ==> SaveReviewsTo(t, vs).reviews[id] == ReviewRowOf(d.entries[id])
    {
      SaveReviewsLastWins(t, vs, id);
      if id in d.entries {
        var i :| 0 <= i < |d.order| && d.order[i] == id;
        assert vs[i].id == id;
      }
    }
  }

  /** The same for `list(d.values())` of the books dictionary. */
  lemma SaveBookValues(t: Tables, d: Dict<string, Book>)
    requires d.Valid()
    requires forall k | k in d.entries :: d.entries[k].id == k
    ensures forall id :: id in SaveBooksTo(t, d.Values()).books <==> id in t.books || id in d.entries
    ensures forall id | id in d.entries :: SaveBooksTo(t, d.Values()).books[id] == BookRowOf(d.entries[id])
  {
    var vs := d.Values();
    forall id
      ensures id in SaveBooksTo(t, vs).books <==> id in t.books || id in d.entries
      ensures id in d.entries ==> SaveBooksTo(t, vs).books[id] == BookRowOf(d.entries[id])
    {
      SaveBooksLastWins(t, vs, id);
      if id in d.entries {
        var i :| 0 <= i < |d.order| && d.order[i] == id;
        assert vs[i].id == id;
      }
    }
  }

  /** The three saves that end `fetch_books`: authors, books, reviews. */
  function SaveLibraryTo(t: Tables, lib: Library, reviews: Dict<string, Review>): Tables
    requires lib.Valid() && reviews.Valid()
  {
    SaveReviewsTo(SaveBooksTo(SaveAuthorsTo(t, lib.authors.Values()), lib.books.Values()), reviews.Values())
  }

  lemma SaveLibraryRows(t: Tables, lib: Library, reviews: Dict<string, Review>)
    requires lib.Valid() && reviews.Valid()
    requires forall k | k in lib.books.entries :: lib.books.entries[k].id == k
    requires forall k | k in reviews.entries :: reviews.entries[k].id == k
    ensures forall id :: id in SaveLibraryTo(t, lib, reviews).reviews <==> id in t.reviews || id in reviews.entries
    ensures forall id | id in reviews.entries :: SaveLibraryTo(t, lib, reviews).reviews[id] == ReviewRowOf(reviews.entries[id])
    ensures forall id | id in lib.books.entries ::
              id in SaveLibraryTo(t, lib, reviews).books && SaveLibraryTo(t, lib, reviews).books[id] == BookRowOf(lib.books.entries[id])
  {
    var t1 := SaveAuthorsTo(t, lib.authors.Values());
    var t2 := SaveBooksTo(t1, lib.books.Values());
    SaveBooksTables(t1, lib.books.Values());
    SaveBookValues(t1, lib.books);
    SaveReviewValues(t2, reviews);
    SaveReviewsTables(t2, reviews.Values());
  }

  /** The scraping pass only sets read dates, so every review stays filed under its id. */
  lemma BackfilledKeyed(reviews: Dict<string, Review>, scrape: bool, shelfPages: seq<Response<ListingPage>>, parse: DateParser)
    requires reviews.Valid()
    requires forall k | k in reviews.entries :: reviews.entries[k].id == k
    requires Backfilled(reviews, scrape, shelfPages, parse).Ok?
    ensures var after := Backfilled(reviews, scrape, shelfPages, parse).value;
      forall k | k in after.entries :: after.entries[k].id == k
  {
    if scrape {
      BackfillEffect(reviews, shelfPages, parse);
      var after := Backfilled(reviews, scrape, shelfPages, parse).value;
      forall k | k in after.entries
        ensures after.entries[k].id == k
      {
        assert after.entries[k].(dates := reviews.entries[k].dates) == reviews.entries[k];
      }
    }
  }

  /** After a successful `fetch_books`, the reviews table holds, besides what it held, one
      row per review collected, with that review's final contents (read date included
      when the scraping pass filled it in); the books table likewise holds every book
      collected. */
  lemma FetchBooksSaves(t: Tables, responses: seq<Response<ListPage>>, userId: string, parse: DateParser,
                        today: Timestamp, scrape: bool, shelfPages: seq<Response<ListingPage>>)
    requires FetchBooksTo(t, responses, userId, parse, today, scrape, shelfPages).Ok?
    ensures var lib := Walk(responses, LoaderFor(userId, parse, today)).value.0;
      var reviews := Backfilled(lib.reviews, scrape, shelfPages, parse).value;
      var after := FetchBooksTo(t, responses, userId, parse, today, scrape, shelfPages).value;
      && (forall id :: id in after.reviews <==> id in t.reviews || id in reviews.entries)
      && (forall id | id in reviews.entries :: after.reviews[id] == ReviewRowOf(reviews.entries[id]))
      && (forall id | id in lib.books.entries :: id in after.books && after.books[id] == BookRowOf(lib.books.entries[id]))
  {
    var load := LoaderFor(userId, parse, today);
    var lib := Walk(responses, load).value.0;
    LoaderKeepsIds(userId, parse, today);
    WalkFromKeyed(responses, 0, -1, 0, NoLibrary(), load);
    BackfilledKeyed(lib.reviews, scrape, shelfPages, parse);
    var reviews := Backfilled(lib.reviews, scrape, shelfPages, parse).value;
    SaveLibraryRows(t, lib, reviews);
  }
}
