/** `scrape_data`: the best-effort pass that fills in missing "read at" dates from
    the HTML listing of the user's "read" shelf, page by page. */
module Scrape {
  import opened Base
  import opened PyStr
  import opened Dicts
  import opened Records

  /** One row of the listing table: its `id` attribute and, when the row has a
      date-read element, that element's text. */
  datatype ListingRow = ListingRow(rowId: string, dateRead: Option<string>)

  /** One listing page: the shelf size read off its selected-shelf link (see
      ReadListingPage), the rows, and whether a "next" link exists. */
  datatype ListingPage = ListingPage(count: Result<int>, rows: seq<ListingRow>, hasNext: bool)

  /** The default the date parser fills missing components from: 1 January 2019. */
  const ReadDefault := Timestamp(2019, 1, 1, 0, 0, 0)

  /** `row.attrs["id"][len("review_"):]`. */
  function ReviewIdOf(rowId: string): (id: string)
    ensures |rowId| >= 7 ==> rowId == rowId[..7] + id
    ensures |rowId| < 7 ==> id == ""
  {
    if |rowId| >= 7 then rowId[7..] else ""
  }

  /** The review id is read back from a row id written as "review_<id>". */
  lemma ReviewIdOfRow(id: string)
    ensures ReviewIdOf("review_" + id) == id
  {
    assert ("review_" + id)[7..] == id;
  }

  /** Filed under a shelf named "read". */
  predicate OnReadShelf(r: Review) {
    exists i | 0 <= i < |r.shelves| :: r.shelves[i].name == Some("read")
  }

  /** The reviews the pass may fill: no read date yet, and on the "read" shelf. */
  function Candidates(reviews: Dict<string, Review>): (ids: set<string>)
    ensures ids <= reviews.entries.Keys
    ensures forall id :: id in ids <==>
      id in reviews.entries && ReadAt !in reviews.entries[id].dates && OnReadShelf(reviews.entries[id])
  {
    set id | id in reviews.entries && ReadAt !in reviews.entries[id].dates && OnReadShelf(reviews.entries[id])
  }

  /** The shelf size shown in the selected-shelf link, e.g. "Read (12)": the text from
      the first "(" (or, without one, its last character), stripped of parentheses. */
  function ShelfCount(text: Option<string>): (r: Result<int>)
    ensures text.None? ==> r == Err(SelectedShelfMissing)
  {
    match text
    case None => Err(SelectedShelfMissing)
    case Some(s) =>
      var start := match IndexOf(s, "(") case Some(i) => i case None => if s == [] then 0 else |s| - 1;
      IntOf(Strip(s[start..], {'(', ')'}))
  }

  /** A listing page from what the HTML parser found: the text of the selected-shelf
      link (None when there is no such link), the rows and whether a next link exists. */
  function ReadListingPage(selectedShelf: Option<string>, rows: seq<ListingRow>, hasNext: bool): (page: ListingPage)
    ensures page.count == ShelfCount(selectedShelf)
    ensures page.rows == rows && page.hasNext == hasNext
  {
    ListingPage(ShelfCount(selectedShelf), rows, hasNext)
  }

  /** A link text "<caption>(<n>)" whose caption has no "(" gives n. */
  lemma ShelfCountOfLabel(caption: string, n: nat)
    requires '(' !in caption
    ensures ShelfCount(Some(caption + "(" + ShowNat(n) + ")")) == Ok(n)
  {
    var digits := ShowNat(n);
    var s := caption + "(" + digits + ")";
    var k := |caption|;
    assert OccursAt(s, "(", k) by { assert s[k..k + 1] == "("; }
    forall i: nat | i < k ensures !OccursAt(s, "(", i) {
      assert s[i..i + 1][0] == s[i] == caption[i];
    }
    FirstOccurrence(s, "(", k);
    assert s[k..] == "(" + digits + ")";
    assert IsDigit(digits[0]) && IsDigit(digits[|digits| - 1]);
    StripExact("(", digits, ")", {'(', ')'});
    IntOfShowNat(n);
  }

  /** A review record with its read date set. */
  function SetReadAt(reviews: Dict<string, Review>, id: string, t: Timestamp): (r: Dict<string, Review>)
    requires id in reviews.entries
    ensures r.order == reviews.order && r.entries.Keys == reviews.entries.Keys
    ensures r.entries == reviews.entries[id := reviews.entries[id].(dates := reviews.entries[id].dates[ReadAt := t])]
  {
    reviews.WithEntries(reviews.entries[id := reviews.entries[id].(dates := reviews.entries[id].dates[ReadAt := t])])
  }

  /** The reviews so far and the number of dates filled in. */
  datatype Filled = Filled(reviews: Dict<string, Review>, count: nat)

  /** The row names a candidate review and shows a date. */
  predicate Writes(row: ListingRow, relevant: set<string>) {
    ReviewIdOf(row.rowId) in relevant && row.dateRead.Some?
  }

  /** One row: a candidate row with a date sets that review's read date and counts it. */
  function FillRow(f: Filled, row: ListingRow, relevant: set<string>, parse: DateParser): (r: Result<Filled>)
    requires relevant <= f.reviews.entries.Keys
    ensures r.Err? <==> Writes(row, relevant) && parse(row.dateRead.value, ReadDefault).None?
    ensures r.Ok? ==> r.value.reviews.order == f.reviews.order && r.value.reviews.entries.Keys == f.reviews.entries.Keys
    ensures !Writes(row, relevant) ==> r == Ok(f)
    ensures r.Ok? && Writes(row, relevant) ==>
      r.value == Filled(SetReadAt(f.reviews, ReviewIdOf(row.rowId), parse(row.dateRead.value, ReadDefault).value), f.count + 1)
  {
    var id := ReviewIdOf(row.rowId);
    if Writes(row, relevant) then
      match parse(row.dateRead.value, ReadDefault)
      case None => Err(NotADate(row.dateRead.value))
      case Some(t) => Ok(Filled(SetReadAt(f.reviews, id, t), f.count + 1))
    else
      Ok(f)
  }

  /** The rows of one page, in order. */
  function FillRows(f: Filled, rows: seq<ListingRow>, relevant: set<string>, parse: DateParser): (r: Result<Filled>)
    requires relevant <= f.reviews.entries.Keys
    ensures r.Ok? ==> r.value.reviews.order == f.reviews.order && r.value.reviews.entries.Keys == f.reviews.entries.Keys
  {
    if rows == [] then Ok(f)
    else
      var g :- FillRows(f, rows[..|rows| - 1], relevant, parse);
      FillRow(g, rows[|rows| - 1], relevant, parse)
  }

  /** The number of rows that set a date. */
  function FillCount(rows: seq<ListingRow>, relevant: set<string>): nat {
    if rows == [] then 0
    else FillCount(rows[..|rows| - 1], relevant) + if Writes(rows[|rows| - 1], relevant) then 1 else 0
  }

  lemma {:induction false} FillCountAppend(a: seq<ListingRow>, b: seq<ListingRow>, relevant: set<string>)
    ensures FillCount(a + b, relevant) == FillCount(a, relevant) + FillCount(b, relevant)
    decreases |b|
  {
    if b == [] {
      assert a + b == a;
    } else {
      assert (a + b)[..|a + b| - 1] == a + b[..|b| - 1];
      FillCountAppend(a, b[..|b| - 1], relevant);
    }
  }

  /** `after` differs from `before` in nothing but the read dates of reviews in `relevant`. */
  predicate OnlyReadAtSet(before: Dict<string, Review>, after: Dict<string, Review>, relevant: set<string>) {
    && after.order == before.order
    && after.entries.Keys == before.entries.Keys
    && (forall id | id in before.entries && id !in relevant :: after.entries[id] == before.entries[id])
    && (forall id | id in before.entries :: after.entries[id].(dates := before.entries[id].dates) == before.entries[id])
    && (forall id | id in before.entries :: after.entries[id].dates - {ReadAt} == before.entries[id].dates - {ReadAt})
  }

  /** Every review that changed got its read date from a candidate row of `rows`. */
  predicate ChangedByRows(before: Dict<string, Review>, after: Dict<string, Review>, rows: seq<ListingRow>,
                          relevant: set<string>, parse: DateParser)
    requires before.entries.Keys == after.entries.Keys
  {
    forall id | id in before.entries && after.entries[id] != before.entries[id] ::
      ReadAt in after.entries[id].dates
      && exists i | 0 <= i < |rows| ::
           Writes(rows[i], relevant) && ReviewIdOf(rows[i].rowId) == id
           && parse(rows[i].dateRead.value, ReadDefault) == Some(after.entries[id].dates[ReadAt])
  }

  /** Filling a page fails exactly when a candidate row's date cannot be parsed. */
  lemma {:induction false} FillRowsFails(f: Filled, rows: seq<ListingRow>, relevant: set<string>, parse: DateParser)
    requires relevant <= f.reviews.entries.Keys
    ensures FillRows(f, rows, relevant, parse).Err? <==>
      exists i | 0 <= i < |rows| :: Writes(rows[i], relevant) && parse(rows[i].dateRead.value, ReadDefault).None?
    decreases |rows|
  {
    if rows != [] {
      var init := rows[..|rows| - 1];
      FillRowsFails(f, init, relevant, parse);
      assert forall i | 0 <= i < |init| :: init[i] == rows[i];
      assert forall i | 0 <= i < |rows| :: i < |init| || rows[i] == rows[|rows| - 1];
    }
  }

  /** Setting one more read date of a candidate keeps "only read dates of candidates changed". */
  lemma FillRowKeeps(before: Dict<string, Review>, g: Filled, row: ListingRow, relevant: set<string>, parse: DateParser)
    requires relevant <= g.reviews.entries.Keys
    requires OnlyReadAtSet(before, g.reviews, relevant)
    requires FillRow(g, row, relevant, parse).Ok?
    ensures OnlyReadAtSet(before, FillRow(g, row, relevant, parse).value.reviews, relevant)
  {
    var after := FillRow(g, row, relevant, parse).value.reviews;
    forall id | id in before.entries
      ensures after.entries[id].dates - {ReadAt} == before.entries[id].dates - {ReadAt}
    {
      assert after.entries[id].dates - {ReadAt} == g.reviews.entries[id].dates - {ReadAt};
    }
  }

  /** Filling a page changes nothing but read dates of candidates, and the counter grows
      by the number of rows that set a date. */
  lemma {:induction false} FillRowsKeeps(f: Filled, rows: seq<ListingRow>, relevant: set<string>, parse: DateParser)
    requires relevant <= f.reviews.entries.Keys
    requires FillRows(f, rows, relevant, parse).Ok?
    ensures var r := FillRows(f, rows, relevant, parse).value;
      OnlyReadAtSet(f.reviews, r.reviews, relevant) && r.count == f.count + FillCount(rows, relevant)
    decreases |rows|
  {
    if rows != [] {
      var init := rows[..|rows| - 1];
      FillRowsKeeps(f, init, relevant, parse);
      FillRowKeeps(f.reviews, FillRows(f, init, relevant, parse).value, rows[|rows| - 1], relevant, parse);
    }
  }

  /** Every review a page changed got its read date from a candidate row of the page. */
  lemma {:induction false} FillRowsSources(f: Filled, rows: seq<ListingRow>, relevant: set<string>, parse: DateParser)
    requires relevant <= f.reviews.entries.Keys
    requires FillRows(f, rows, relevant, parse).Ok?
    ensures ChangedByRows(f.reviews, FillRows(f, rows, relevant, parse).value.reviews, rows, relevant, parse)
    decreases |rows|
  {
    if rows != [] {
      var init := rows[..|rows| - 1];
      var last := rows[|rows| - 1];
      FillRowsSources(f, init, relevant, parse);
      var before := f.reviews;
      var mid := FillRows(f, init, relevant, parse).value.reviews;
      var after := FillRows(f, rows, relevant, parse).value.reviews;
      forall id | id in before.entries && after.entries[id] != before.entries[id]
        ensures ReadAt in after.entries[id].dates
        ensures exists i | 0 <= i < |rows| ::
          Writes(rows[i], relevant) && ReviewIdOf(rows[i].rowId) == id
          && parse(rows[i].dateRead.value, ReadDefault) == Some(after.entries[id].dates[ReadAt])
      {
        if Writes(last, relevant) && ReviewIdOf(last.rowId) == id {
          assert rows[|rows| - 1] == last;
        } else {
          assert after.entries[id] == mid.entries[id];
          var i :| 0 <= i < |init| && Writes(init[i], relevant) && ReviewIdOf(init[i].rowId) == id
                   && parse(init[i].dateRead.value, ReadDefault) == Some(mid.entries[id].dates[ReadAt]);
          assert rows[i] == init[i];
        }
      }
    }
  }

  /** The row names review `id`, a candidate, and shows a date. */
  predicate WritesId(row: ListingRow, relevant: set<string>, id: string) {
    Writes(row, relevant) && ReviewIdOf(row.rowId) == id
  }

  /** The date text of the last row of `rows` that writes review `id`, if any. */
  function LastDate(rows: seq<ListingRow>, relevant: set<string>, id: string): Option<string> {
    if rows == [] then None
    else if WritesId(rows[|rows| - 1], relevant, id) then Some(rows[|rows| - 1].dateRead.value)
    else LastDate(rows[..|rows| - 1], relevant, id)
  }

  /** The row that writes `id` with no later row writing it gives the last date. */
  lemma {:induction false} LastDateAt(rows: seq<ListingRow>, relevant: set<string>, id: string, i: nat)
    requires i < |rows| && WritesId(rows[i], relevant, id)
    requires forall j | i < j < |rows| :: !WritesId(rows[j], relevant, id)
    ensures LastDate(rows, relevant, id) == Some(rows[i].dateRead.value)
    decreases |rows|
  {
    if i < |rows| - 1 {
      var init := rows[..|rows| - 1];
      assert init[i] == rows[i];
      forall j | i < j < |init| ensures !WritesId(init[j], relevant, id) {
        assert init[j] == rows[j];
      }
      LastDateAt(init, relevant, id, i);
    }
  }

  /** No row writes `id`: there is no last date. */
  lemma {:induction false} LastDateNone(rows: seq<ListingRow>, relevant: set<string>, id: string)
    requires forall j | 0 <= j < |rows| :: !WritesId(rows[j], relevant, id)
    ensures LastDate(rows, relevant, id) == None
    decreases |rows|
  {
    if rows != [] {
      var init := rows[..|rows| - 1];
      forall j | 0 <= j < |init| ensures !WritesId(init[j], relevant, id) {
        assert init[j] == rows[j];
      }
      LastDateNone(init, relevant, id);
    }
  }

  /** The last date over two runs of rows is the second's, or else the first's. */
  lemma {:induction false} LastDateAppend(a: seq<ListingRow>, b: seq<ListingRow>, relevant: set<string>, id: string)
    ensures LastDate(a + b, relevant, id) ==
      if LastDate(b, relevant, id).Some? then LastDate(b, relevant, id) else LastDate(a, relevant, id)
    decreases |b|
  {
    if b == [] {
      assert a + b == a;
    } else {
      assert (a + b)[..|a + b| - 1] == a + b[..|b| - 1];
      assert (a + b)[|a + b| - 1] == b[|b| - 1];
      LastDateAppend(a, b[..|b| - 1], relevant, id);
    }
  }

  /** A review with its read date set to `t`. */
  function WithReadAt(r: Review, t: Timestamp): Review {
    r.(dates := r.dates[ReadAt := t])
  }

  /** Setting the read date twice leaves the second date. */
  lemma WithReadAtTwice(r: Review, t: Timestamp, t': Timestamp)
    ensures WithReadAt(WithReadAt(r, t), t') == WithReadAt(r, t')
  {
    assert r.dates[ReadAt := t][ReadAt := t'] == r.dates[ReadAt := t'];
  }

  /** Review `id` in `after` is review `id` in `before` with its read date set from the
      last row of `rows` that writes it, or unchanged when no row does. */
  predicate SetsLastDate(before: Dict<string, Review>, after: Dict<string, Review>, rows: seq<ListingRow>,
                         relevant: set<string>, parse: DateParser, id: string)
    requires id in before.entries && id in after.entries
  {
    match LastDate(rows, relevant, id)
    case None => after.entries[id] == before.entries[id]
    case Some(text) =>
      parse(text, ReadDefault).Some? && after.entries[id] == WithReadAt(before.entries[id], parse(text, ReadDefault).value)
  }

  /** Every review is set from its last row, as SetsLastDate says. */
  predicate SetsLastDates(before: Dict<string, Review>, after: Dict<string, Review>, rows: seq<ListingRow>,
                          relevant: set<string>, parse: DateParser)
  {
    && after.entries.Keys == before.entries.Keys
    && forall id | id in before.entries :: SetsLastDate(before, after, rows, relevant, parse, id)
  }

  /** Filling a page leaves each review with the date of the last row of the page that
      names it: a later row for the same review overwrites an earlier one. */
  lemma {:induction false} FillRowsSets(f: Filled, rows: seq<ListingRow>, relevant: set<string>, parse: DateParser)
    requires relevant <= f.reviews.entries.Keys
    requires FillRows(f, rows, relevant, parse).Ok?
    ensures SetsLastDates(f.reviews, FillRows(f, rows, relevant, parse).value.reviews, rows, relevant, parse)
    decreases |rows|
  {
    if rows != [] {
      var init := rows[..|rows| - 1];
      var last := rows[|rows| - 1];
      FillRowsSets(f, init, relevant, parse);
      var before := f.reviews;
      var mid := FillRows(f, init, relevant, parse).value;
      var after := FillRows(f, rows, relevant, parse).value.reviews;
      assert after == FillRow(mid, last, relevant, parse).value.reviews;
      forall id | id in before.entries ensures SetsLastDate(before, after, rows, relevant, parse, id) {
        assert SetsLastDate(before, mid.reviews, init, relevant, parse, id);
        if WritesId(last, relevant, id) {
          var t := parse(last.dateRead.value, ReadDefault).value;
          assert after.entries[id] == WithReadAt(mid.reviews.entries[id], t);
          if LastDate(init, relevant, id).Some? {
            WithReadAtTwice(before.entries[id], parse(LastDate(init, relevant, id).value, ReadDefault).value, t);
          }
        } else {
          assert after.entries[id] == mid.reviews.entries[id];
        }
      }
    }
  }

  /** Setting dates from one run of rows and then from the next is setting them from both. */
  lemma SetsLastDatesAppend(a: Dict<string, Review>, b: Dict<string, Review>, c: Dict<string, Review>,
                            rows: seq<ListingRow>, more: seq<ListingRow>, relevant: set<string>, parse: DateParser)
    requires SetsLastDates(a, b, rows, relevant, parse) && SetsLastDates(b, c, more, relevant, parse)
    ensures SetsLastDates(a, c, rows + more, relevant, parse)
  {
    forall id | id in a.entries ensures SetsLastDate(a, c, rows + more, relevant, parse, id) {
      LastDateAppend(rows, more, relevant, id);
      assert SetsLastDate(a, b, rows, relevant, parse, id);
      assert SetsLastDate(b, c, more, relevant, parse, id);
      if LastDate(more, relevant, id).Some? && LastDate(rows, relevant, id).Some? {
        WithReadAtTwice(a.entries[id], parse(LastDate(rows, relevant, id).value, ReadDefault).value,
                        parse(LastDate(more, relevant, id).value, ReadDefault).value);
      }
    }
  }

  /** The rows of the listing pages `from` up to `to`, in order. */
  function ScannedRows(pages: seq<Response<ListingPage>>, from: nat, to: nat): seq<ListingRow>
    requires from <= to <= |pages|
    decreases |pages| - from
  {
    if from == to then []
    else (if pages[from].Served? then pages[from].page.rows else []) + ScannedRows(pages, from + 1, to)
  }

  /** The outcome of a scrape: the reviews, the dates filled, and the pages requested. */
  datatype Scraped = Scraped(reviews: Dict<string, Review>, count: nat, pages: nat)

  /** The shelf size known once page `p + 1` is in: read off the first page, carried afterwards. */
  function TotalAt(pages: seq<Response<ListingPage>>, p: nat, total: int): (r: Result<int>)
    requires p < |pages| && pages[p].Served?
    ensures p > 0 ==> r == Ok(total)
  {
    if p == 0 then pages[p].page.count else Ok(total)
  }

  /** What one listing page decides: the scrape stops with its outcome, or goes on with
      the shelf size, the rows seen and the reviews so far. */
  datatype Step = Stop(done: Scraped) | Continue(total: int, seen: nat, filled: Filled)

  /** One turn of the `while True` loop, on page `p + 1` (`pages[p]`): the request must
      succeed, the first page gives the shelf size, the rows are filled, and the loop
      breaks when there is no next link or the rows seen reach the shelf size. */
  function ScrapePage(pages: seq<Response<ListingPage>>, p: nat, total: int, seen: nat,
                      relevant: set<string>, f: Filled, parse: DateParser): (r: Result<Step>)
    requires p < |pages|
    requires relevant <= f.reviews.entries.Keys
    ensures r.Ok? ==> pages[p].Served? && TotalAt(pages, p, total).Ok?
    ensures r.Ok? ==> FillRows(f, pages[p].page.rows, relevant, parse).Ok?
    ensures r.Ok? && r.value.Continue? ==>
              r.value.filled.reviews.order == f.reviews.order && r.value.filled.reviews.entries.Keys == f.reviews.entries.Keys
    ensures r.Ok? && r.value.Stop? ==>
              r.value.done.reviews.order == f.reviews.order && r.value.done.reviews.entries.Keys == f.reviews.entries.Keys
    ensures r.Ok? && r.value.Stop? ==> r.value.done.pages == p + 1
  {
    match pages[p]
    case HttpFailure(status) => Err(HttpStatus(status))
    case Served(page) =>
      var total' :- TotalAt(pages, p, total);
      var g :- FillRows(f, page.rows, relevant, parse);
      var seen' := seen + |page.rows|;
      if !page.hasNext || seen' >= total' then Ok(Stop(Scraped(g.reviews, g.count, p + 1)))
      else Ok(Continue(total', seen', g))
  }

  /** A served page with its shelf size known and its rows filled, that has no next
      link or brings the rows seen up to the shelf size, stops the scrape. */
  lemma ScrapePageStops(pages: seq<Response<ListingPage>>, p: nat, total: int, seen: nat,
                        relevant: set<string>, f: Filled, parse: DateParser, total': int, seen': nat, g: Filled)
    requires p < |pages| && pages[p].Served?
    requires relevant <= f.reviews.entries.Keys
    requires TotalAt(pages, p, total) == Ok(total')
    requires FillRows(f, pages[p].page.rows, relevant, parse) == Ok(g)
    requires seen' == seen + |pages[p].page.rows|
    requires !pages[p].page.hasNext || seen' >= total'
    ensures ScrapePage(pages, p, total, seen, relevant, f, parse).Ok?
    ensures ScrapePage(pages, p, total, seen, relevant, f, parse).value.Stop?
    ensures ScrapePage(pages, p, total, seen, relevant, f, parse).value.done == Scraped(g.reviews, g.count, p + 1)
  {
  }

  /** A served page with its shelf size known and its rows filled, that has a next link
      and leaves rows to see, continues the scrape. */
  lemma ScrapePageGoesOn(pages: seq<Response<ListingPage>>, p: nat, total: int, seen: nat,
                         relevant: set<string>, f: Filled, parse: DateParser, total': int, seen': nat, g: Filled)
    requires p < |pages| && pages[p].Served?
    requires relevant <= f.reviews.entries.Keys
    requires TotalAt(pages, p, total) == Ok(total')
    requires FillRows(f, pages[p].page.rows, relevant, parse) == Ok(g)
    requires seen' == seen + |pages[p].page.rows|
    requires pages[p].page.hasNext && seen' < total'
    ensures ScrapePage(pages, p, total, seen, relevant, f, parse).Ok?
    ensures ScrapePage(pages, p, total, seen, relevant, f, parse).value.Continue?
    ensures ScrapePage(pages, p, total, seen, relevant, f, parse).value.filled == g
    ensures ScrapePage(pages, p, total, seen, relevant, f, parse).value.seen == seen'
    ensures ScrapePage(pages, p, total, seen, relevant, f, parse).value.total == total'
  {
  }

  /** Listing page `p + 1` onwards, the shelf size `total` and the number of rows seen so
      far being known; the first page sets `total`. Page `p + 1` is `pages[p]`, and asking
      for a page past the end of `pages` ends the run with NoResponse. */
  function ScrapeFrom(pages: seq<Response<ListingPage>>, p: nat, total: int, seen: nat,
                      relevant: set<string>, f: Filled, parse: DateParser): (r: Result<Scraped>)
    requires relevant <= f.reviews.entries.Keys
    ensures r.Ok? ==> p < r.value.pages <= |pages|
    ensures r.Ok? ==> r.value.reviews.order == f.reviews.order && r.value.reviews.entries.Keys == f.reviews.entries.Keys
    decreases |pages| - p
  {
    if p >= |pages| then Err(NoResponse(p + 1))
    else
      var step :- ScrapePage(pages, p, total, seen, relevant, f, parse);
      match step
      case Stop(done) => Ok(done)
      case Continue(total', seen', g) => ScrapeFrom(pages, p + 1, total', seen', relevant, g, parse)
  }

  /** The cases of one step of a scrape: past the end, a page that fails, a page that
      stops the run, and a page after which it goes on. */
  lemma ScrapeFromCases(pages: seq<Response<ListingPage>>, p: nat, total: int, seen: nat,
                        relevant: set<string>, f: Filled, parse: DateParser)
    requires relevant <= f.reviews.entries.Keys
    ensures p >= |pages| ==> ScrapeFrom(pages, p, total, seen, relevant, f, parse) == Err(NoResponse(p + 1))
    ensures p < |pages| && ScrapePage(pages, p, total, seen, relevant, f, parse).Err? ==>
      ScrapeFrom(pages, p, total, seen, relevant, f, parse) == Err(ScrapePage(pages, p, total, seen, relevant, f, parse).error)
    ensures p < |pages| && ScrapePage(pages, p, total, seen, relevant, f, parse).Ok? ==>
      var step := ScrapePage(pages, p, total, seen, relevant, f, parse).value;
      ScrapeFrom(pages, p, total, seen, relevant, f, parse) ==
        match step
        case Stop(done) => Ok(done)
        case Continue(total', seen', g) => ScrapeFrom(pages, p + 1, total', seen', relevant, g, parse)
  {
  }

  /** A scrape that succeeds had its page `p + 1` served, its shelf size known and the
      page's rows filled without error. */
  lemma ScrapeFromServed(pages: seq<Response<ListingPage>>, p: nat, total: int, seen: nat,
                         relevant: set<string>, f: Filled, parse: DateParser)
    requires relevant <= f.reviews.entries.Keys
    requires ScrapeFrom(pages, p, total, seen, relevant, f, parse).Ok?
    ensures p < |pages| && ScrapePage(pages, p, total, seen, relevant, f, parse).Ok?
  {
    ScrapeFromCases(pages, p, total, seen, relevant, f, parse);
  }

  /** A page that stops the scrape gives its outcome. */
  lemma ScrapeFromLast(pages: seq<Response<ListingPage>>, p: nat, total: int, seen: nat,
                       relevant: set<string>, f: Filled, parse: DateParser, done: Scraped)
    requires relevant <= f.reviews.entries.Keys
    requires p < |pages| && ScrapePage(pages, p, total, seen, relevant, f, parse).Ok?
    requires ScrapePage(pages, p, total, seen, relevant, f, parse).value.Stop?
    requires ScrapePage(pages, p, total, seen, relevant, f, parse).value.done == done
    ensures ScrapeFrom(pages, p, total, seen, relevant, f, parse) == Ok(done)
  {
    ScrapeFromCases(pages, p, total, seen, relevant, f, parse);
  }

  /** Any other page hands the new count and reviews on to the next page. */
  lemma ScrapeFromNext(pages: seq<Response<ListingPage>>, p: nat, total: int, seen: nat,
                       relevant: set<string>, f: Filled, parse: DateParser, total': int, seen': nat, g: Filled)
    requires relevant <= f.reviews.entries.Keys
    requires p < |pages| && ScrapePage(pages, p, total, seen, relevant, f, parse).Ok?
    requires ScrapePage(pages, p, total, seen, relevant, f, parse).value.Continue?
    requires ScrapePage(pages, p, total, seen, relevant, f, parse).value.total == total'
    requires ScrapePage(pages, p, total, seen, relevant, f, parse).value.seen == seen'
    requires ScrapePage(pages, p, total, seen, relevant, f, parse).value.filled == g
    ensures relevant <= g.reviews.entries.Keys
    ensures ScrapeFrom(pages, p, total, seen, relevant, f, parse) == ScrapeFrom(pages, p + 1, total', seen', relevant, g, parse)
  {
    ScrapeFromCases(pages, p, total, seen, relevant, f, parse);
  }

  /** `scrape_data` over a given listing. */
  function Backfill(reviews: Dict<string, Review>, pages: seq<Response<ListingPage>>, parse: DateParser): Result<Scraped> {
    ScrapeFrom(pages, 0, 0, 0, Candidates(reviews), Filled(reviews, 0), parse)
  }

  /** Two steps that each change only candidates' read dates make one such change. */
  lemma OnlyReadAtSetTrans(a: Dict<string, Review>, b: Dict<string, Review>, c: Dict<string, Review>, relevant: set<string>)
    requires OnlyReadAtSet(a, b, relevant) && OnlyReadAtSet(b, c, relevant)
    ensures OnlyReadAtSet(a, c, relevant)
  {
    forall id | id in a.entries
      ensures c.entries[id].(dates := a.entries[id].dates) == a.entries[id]
    {
      assert c.entries[id].(dates := b.entries[id].dates).(dates := a.entries[id].dates) == c.entries[id].(dates := a.entries[id].dates);
    }
  }

  /** Only candidates' read dates changed, and the counter is the number of rows that
      set a date. */
  lemma {:induction false} ScrapeFromEffect(pages: seq<Response<ListingPage>>, p: nat, total: int, seen: nat,
                                            relevant: set<string>, f: Filled, parse: DateParser)
    requires relevant <= f.reviews.entries.Keys
    requires ScrapeFrom(pages, p, total, seen, relevant, f, parse).Ok?
    ensures var s := ScrapeFrom(pages, p, total, seen, relevant, f, parse).value;
      OnlyReadAtSet(f.reviews, s.reviews, relevant)
    ensures var s := ScrapeFrom(pages, p, total, seen, relevant, f, parse).value;
      s.count == f.count + FillCount(ScannedRows(pages, p, s.pages), relevant)
    decreases |pages| - p
  {
    ScrapeFromServed(pages, p, total, seen, relevant, f, parse);
    var page := pages[p].page;
    var g := FillRows(f, page.rows, relevant, parse).value;
    FillRowsKeeps(f, page.rows, relevant, parse);
    var s := ScrapeFrom(pages, p, total, seen, relevant, f, parse).value;
    match ScrapePage(pages, p, total, seen, relevant, f, parse).value
    case Stop(done) =>
      ScrapeFromLast(pages, p, total, seen, relevant, f, parse, done);
      assert done == Scraped(g.reviews, g.count, p + 1);
      assert ScannedRows(pages, p, p + 1) == page.rows + [] == page.rows;
    case Continue(total', seen', g') =>
      assert g' == g;
      ScrapeFromNext(pages, p, total, seen, relevant, f, parse, total', seen', g);
      ScrapeFromEffect(pages, p + 1, total', seen', relevant, g, parse);
      OnlyReadAtSetTrans(f.reviews, g.reviews, s.reviews, relevant);
      assert ScannedRows(pages, p, s.pages) == page.rows + ScannedRows(pages, p + 1, s.pages);
      FillCountAppend(page.rows, ScannedRows(pages, p + 1, s.pages), relevant);
  }

  /** Each review ends with the date of the last row naming it on the pages read. */
  lemma {:induction false} ScrapeFromSets(pages: seq<Response<ListingPage>>, p: nat, total: int, seen: nat,
                                          relevant: set<string>, f: Filled, parse: DateParser)
    requires relevant <= f.reviews.entries.Keys
    requires ScrapeFrom(pages, p, total, seen, relevant, f, parse).Ok?
    ensures var s := ScrapeFrom(pages, p, total, seen, relevant, f, parse).value;
      SetsLastDates(f.reviews, s.reviews, ScannedRows(pages, p, s.pages), relevant, parse)
    decreases |pages| - p
  {
    ScrapeFromServed(pages, p, total, seen, relevant, f, parse);
    var page := pages[p].page;
    var g := FillRows(f, page.rows, relevant, parse).value;
    FillRowsSets(f, page.rows, relevant, parse);
    var s := ScrapeFrom(pages, p, total, seen, relevant, f, parse).value;
    match ScrapePage(pages, p, total, seen, relevant, f, parse).value
    case Stop(done) =>
      ScrapeFromLast(pages, p, total, seen, relevant, f, parse, done);
      assert done == Scraped(g.reviews, g.count, p + 1);
      assert ScannedRows(pages, p, p + 1) == page.rows + [] == page.rows;
    case Continue(total', seen', g') =>
      assert g' == g;
      ScrapeFromNext(pages, p, total, seen, relevant, f, parse, total', seen', g);
      ScrapeFromSets(pages, p + 1, total', seen', relevant, g, parse);
      assert ScannedRows(pages, p, s.pages) == page.rows + ScannedRows(pages, p + 1, s.pages);
      SetsLastDatesAppend(f.reviews, g.reviews, s.reviews, page.rows, ScannedRows(pages, p + 1, s.pages), relevant, parse);
  }

  /** The scrape stops at the first page that has no "next" link or brings the rows seen
      up to the shelf size; every earlier page had a next link and left rows to see. */
  predicate StopsAt(pages: seq<Response<ListingPage>>, from: nat, q: nat, seen: nat, total: int)
    requires from <= q < |pages| && forall k | from <= k <= q :: pages[k].Served?
  {
    !pages[q].page.hasNext || seen + |ScannedRows(pages, from, q + 1)| >= total
  }

  /** A page with a next link that leaves rows to see does not stop the scrape, and
      where the scrape stops after it is where it stops from it. */
  lemma StopsShift(pages: seq<Response<ListingPage>>, p: nat, next: nat, n: nat, seen: nat, seen': nat, total: int)
    requires next == p + 1 < n <= |pages|
    requires forall q | p <= q < n :: pages[q].Served?
    requires seen' == seen + |pages[p].page.rows|
    requires pages[p].page.hasNext && seen' < total
    requires StopsAt(pages, next, n - 1, seen', total)
    requires forall q | next <= q < n - 1 :: !StopsAt(pages, next, q, seen', total)
    ensures StopsAt(pages, p, n - 1, seen, total)
    ensures forall q | p <= q < n - 1 :: !StopsAt(pages, p, q, seen, total)
  {
    var rows := pages[p].page.rows;
    assert ScannedRows(pages, p, p + 1) == rows + [];
    forall q | p + 1 <= q < n
      ensures StopsAt(pages, p, q, seen, total) == StopsAt(pages, p + 1, q, seen', total)
    {
      assert ScannedRows(pages, p, q + 1) == rows + ScannedRows(pages, p + 1, q + 1);
    }
  }

  lemma {:induction false} ScrapeFromStops(pages: seq<Response<ListingPage>>, p: nat, total: int, seen: nat,
                                           relevant: set<string>, f: Filled, parse: DateParser)
    requires relevant <= f.reviews.entries.Keys
    requires ScrapeFrom(pages, p, total, seen, relevant, f, parse).Ok?
    ensures p < |pages| && pages[p].Served? && TotalAt(pages, p, total).Ok?
    ensures var n := ScrapeFrom(pages, p, total, seen, relevant, f, parse).value.pages;
      forall q | p <= q < n :: pages[q].Served?
    ensures var n := ScrapeFrom(pages, p, total, seen, relevant, f, parse).value.pages;
      StopsAt(pages, p, n - 1, seen, TotalAt(pages, p, total).value)
    ensures var n := ScrapeFrom(pages, p, total, seen, relevant, f, parse).value.pages;
      forall q | p <= q < n - 1 :: !StopsAt(pages, p, q, seen, TotalAt(pages, p, total).value)
    decreases |pages| - p
  {
    ScrapeFromServed(pages, p, total, seen, relevant, f, parse);
    var page := pages[p].page;
    var shown := TotalAt(pages, p, total).value;
    var n := ScrapeFrom(pages, p, total, seen, relevant, f, parse).value.pages;
    assert ScannedRows(pages, p, p + 1) == page.rows + [];
    match ScrapePage(pages, p, total, seen, relevant, f, parse).value
    case Stop(done) =>
      ScrapeFromLast(pages, p, total, seen, relevant, f, parse, done);
    case Continue(total', seen', g) =>
      assert total' == shown && seen' == seen + |page.rows|;
      ScrapeFromNext(pages, p, total, seen, relevant, f, parse, total', seen', g);
      ScrapeFromStops(pages, p + 1, total', seen', relevant, g, parse);
      StopsShift(pages, p, p + 1, n, seen, seen', total');
  }

  /** The pass as a whole: only candidates' read dates change, and the counter is the
      number of candidate rows with a date on the pages read. */
  lemma BackfillEffect(reviews: Dict<string, Review>, pages: seq<Response<ListingPage>>, parse: DateParser)
    requires Backfill(reviews, pages, parse).Ok?
    ensures var s := Backfill(reviews, pages, parse).value;
      && 1 <= s.pages <= |pages|
      && OnlyReadAtSet(reviews, s.reviews, Candidates(reviews))
      && s.count == FillCount(ScannedRows(pages, 0, s.pages), Candidates(reviews))
  {
    ScrapeFromEffect(pages, 0, 0, 0, Candidates(reviews), Filled(reviews, 0), parse);
  }

  /** After the pass, a review named by a candidate row with a date on the pages read has
      as its read date the parse of the last such row's date; a review no such row names
      is unchanged. */
  lemma BackfillSets(reviews: Dict<string, Review>, pages: seq<Response<ListingPage>>, parse: DateParser, id: string)
    requires Backfill(reviews, pages, parse).Ok?
    requires id in reviews.entries
    ensures var s := Backfill(reviews, pages, parse).value;
      var rows := ScannedRows(pages, 0, s.pages);
      forall i | 0 <= i < |rows| && WritesId(rows[i], Candidates(reviews), id)
                 && (forall j | i < j < |rows| :: !WritesId(rows[j], Candidates(reviews), id)) ::
        && parse(rows[i].dateRead.value, ReadDefault).Some?
        && s.reviews.entries[id] == WithReadAt(reviews.entries[id], parse(rows[i].dateRead.value, ReadDefault).value)
    ensures var s := Backfill(reviews, pages, parse).value;
      var rows := ScannedRows(pages, 0, s.pages);
      (forall j | 0 <= j < |rows| :: !WritesId(rows[j], Candidates(reviews), id)) ==> s.reviews.entries[id] == reviews.entries[id]
  {
    var relevant := Candidates(reviews);
    var s := Backfill(reviews, pages, parse).value;
    var rows := ScannedRows(pages, 0, s.pages);
    assert SetsLastDate(reviews, s.reviews, rows, relevant, parse, id) by {
      ScrapeFromSets(pages, 0, 0, 0, relevant, Filled(reviews, 0), parse);
    }
    SetsLastDateRows(reviews, s.reviews, rows, relevant, parse, id);
  }

  /** SetsLastDate read row by row: the last row naming the review gives its date, and
      without such a row the review is unchanged. */
  lemma SetsLastDateRows(before: Dict<string, Review>, after: Dict<string, Review>, rows: seq<ListingRow>,
                         relevant: set<string>, parse: DateParser, id: string)
    requires id in before.entries && id in after.entries
    requires SetsLastDate(before, after, rows, relevant, parse, id)
    ensures forall i | 0 <= i < |rows| && WritesId(rows[i], relevant, id)
                       && (forall j | i < j < |rows| :: !WritesId(rows[j], relevant, id)) ::
      && parse(rows[i].dateRead.value, ReadDefault).Some?
      && after.entries[id] == WithReadAt(before.entries[id], parse(rows[i].dateRead.value, ReadDefault).value)
    ensures (forall j | 0 <= j < |rows| :: !WritesId(rows[j], relevant, id)) ==> after.entries[id] == before.entries[id]
  {
    forall i | 0 <= i < |rows| && WritesId(rows[i], relevant, id) && (forall j | i < j < |rows| :: !WritesId(rows[j], relevant, id))
      ensures parse(rows[i].dateRead.value, ReadDefault).Some?
      ensures after.entries[id] == WithReadAt(before.entries[id], parse(rows[i].dateRead.value, ReadDefault).value)
    {
      LastDateAt(rows, relevant, id, i);
    }
    if forall j | 0 <= j < |rows| :: !WritesId(rows[j], relevant, id) {
      LastDateNone(rows, relevant, id);
    }
  }

  /** A review that is not on the "read" shelf, or already has a read date, is never touched. */
  lemma BackfillLeavesOthers(reviews: Dict<string, Review>, pages: seq<Response<ListingPage>>, parse: DateParser, id: string)
    requires Backfill(reviews, pages, parse).Ok?
    requires id in reviews.entries
    requires !OnReadShelf(reviews.entries[id]) || ReadAt in reviews.entries[id].dates
    ensures Backfill(reviews, pages, parse).value.reviews.entries[id] == reviews.entries[id]
  {
    BackfillEffect(reviews, pages, parse);
  }

  /** The pass stops at the first page without a "next" link or at which the rows seen
      reach the count the first page showed; every earlier page had a next link and left
      rows to see. */
  lemma BackfillStops(reviews: Dict<string, Review>, pages: seq<Response<ListingPage>>, parse: DateParser)
    requires Backfill(reviews, pages, parse).Ok?
    ensures var n := Backfill(reviews, pages, parse).value.pages;
      1 <= n <= |pages| && forall q | 0 <= q < n :: pages[q].Served?
    ensures pages[0].page.count.Ok?
    ensures var n := Backfill(reviews, pages, parse).value.pages;
      StopsAt(pages, 0, n - 1, 0, pages[0].page.count.value)
    ensures var n := Backfill(reviews, pages, parse).value.pages;
      forall q | 0 <= q < n - 1 :: !StopsAt(pages, 0, q, 0, pages[0].page.count.value)
  {
    ScrapeFromStops(pages, 0, 0, 0, Candidates(reviews), Filled(reviews, 0), parse);
  }

  /** The loop over one page's rows: each candidate row with a date gets that date as
      its review's read date, counted; a date that does not parse ends the scrape. */
  method FillPage(current: Dict<string, Review>, count: nat, rows: seq<ListingRow>, relevant: set<string>, parse: DateParser)
    returns (r: Result<Filled>)
    requires relevant <= current.entries.Keys
    ensures r == FillRows(Filled(current, count), rows, relevant, parse)
  {
    var reviews := current;
    var filled := count;
    for i := 0 to |rows|
      invariant FillRows(Filled(current, count), rows[..i], relevant, parse) == Ok(Filled(reviews, filled))
    {
      assert rows[..i + 1][..i] == rows[..i];
      var id := ReviewIdOf(rows[i].rowId);
      if id in relevant && rows[i].dateRead.Some? {
        var date := parse(rows[i].dateRead.value, ReadDefault);
        if date.None? {
          ghost var start := Filled(current, count);
          assert FillRows(start, rows[..i + 1], relevant, parse) == Err(NotADate(rows[i].dateRead.value)) by {
            assert FillRow(Filled(reviews, filled), rows[i], relevant, parse) == Err(NotADate(rows[i].dateRead.value));
          }
          assert FillRows(start, rows, relevant, parse) == FillRows(start, rows[..i + 1], relevant, parse) by {
            FillRowsErrExtends(start, rows[..i + 1], rows[i + 1..], relevant, parse);
            assert rows[..i + 1] + rows[i + 1..] == rows;
          }
          return Err(NotADate(rows[i].dateRead.value));
        }
        reviews := SetReadAt(reviews, id, date.value);
        filled := filled + 1;
      }
    }
    assert rows[..|rows|] == rows;
    return Ok(Filled(reviews, filled));
  }

  /** `scrape_data` as the source runs it: request page after page, read the shelf size
      off the first, fill the rows of each, and stop when there is no next page or every
      row of the shelf has been seen. The reviews dictionary it updates is passed in and
      handed back. */
  method ScrapeData(reviews: Dict<string, Review>, pages: seq<Response<ListingPage>>, parse: DateParser)
    returns (r: Result<Scraped>)
    ensures r == Backfill(reviews, pages, parse)
  {
    var relevant := Candidates(reviews);
    var current := reviews;
    var count: nat := 0;
    var page: nat := 0;
    var seen: nat := 0;
    var total := 0;
    while true
      invariant relevant <= current.entries.Keys
      invariant ScrapeFrom(pages, page, total, seen, relevant, Filled(current, count), parse) == Backfill(reviews, pages, parse)
      decreases |pages| - page
    {
      ghost var totalBefore, seenBefore, before := total, seen, Filled(current, count);
      ScrapeFromCases(pages, page, total, seen, relevant, before, parse);
      page := page + 1;
      if page > |pages| {
        return Err(NoResponse(page));
      }
      var response := pages[page - 1];
      if response.HttpFailure? {
        return Err(HttpStatus(response.status));
      }
      var listing := response.page;
      if page == 1 {
        var shelfCount := listing.count;
        if shelfCount.Err? {
          return Err(shelfCount.error);
        }
        total := shelfCount.value;
      }
      assert TotalAt(pages, page - 1, totalBefore) == Ok(total);
      var filled := FillPage(current, count, listing.rows, relevant, parse);
      if filled.Err? {
        return Err(filled.error);
      }
      current, count := filled.value.reviews, filled.value.count;
      seen := seen + |listing.rows|;
      if !listing.hasNext || seen >= total {
        ScrapePageStops(pages, page - 1, totalBefore, seenBefore, relevant, before, parse, total, seen, Filled(current, count));
        ScrapeFromLast(pages, page - 1, totalBefore, seenBefore, relevant, before, parse, Scraped(current, count, page));
        return Ok(Scraped(current, count, page));
      }
      ScrapePageGoesOn(pages, page - 1, totalBefore, seenBefore, relevant, before, parse, total, seen, Filled(current, count));
      ScrapeFromNext(pages, page - 1, totalBefore, seenBefore, relevant, before, parse, total, seen, Filled(current, count));
    }
  }

  /** Once a row fails, the page fails with that error whatever rows follow. */
  lemma {:induction false} FillRowsErrExtends(f: Filled, rows: seq<ListingRow>, more: seq<ListingRow>,
                                              relevant: set<string>, parse: DateParser)
    requires relevant <= f.reviews.entries.Keys
    requires FillRows(f, rows, relevant, parse).Err?
    ensures FillRows(f, rows + more, relevant, parse) == FillRows(f, rows, relevant, parse)
    decreases |more|
  {
    if more == [] {
      assert rows + more == rows;
    } else {
      assert (rows + more)[..|rows + more| - 1] == rows + more[..|more| - 1];
      FillRowsErrExtends(f, rows, more[..|more| - 1], relevant, parse);
    }
  }
}
