/**
 * The paged API collector (analyze_the_lots/parse_goszakup.py): `parse_lots`
 * turns one API response into its lots, `main` walks consecutive pages from
 * `start_page` until an empty page or the page cap, and `save_lots` appends the
 * collected lots to a CSV store, writing the header only when the file is new.
 *
 * The API is a page table: `table[k]` is the response for page `start + k`,
 * and every page outside the table answers with an empty body. A lot is any
 * value of type `T`; the model never looks inside it.
 */
module Pagination {
  import opened Wrappers

  /** One API call: a failure (any exception), or a JSON body whose `items`/`total` keys may be absent. */
  datatype ApiResponse<T> = Failed | Body(items: Option<seq<T>>, total: Option<int>)

  /** `parse_lots`: the items and the total, `[]` and `0` for absent keys, `([], 0)` on failure. */
  function ParseLots<T>(response: ApiResponse<T>): (r: (seq<T>, int))
    ensures response.Failed? ==> r == ([], 0)
    ensures response.Body? && response.items.None? ==> r.0 == []
    ensures response.Body? && response.items.Some? ==> r.0 == response.items.value
  {
    match response
    case Failed => ([], 0)
    case Body(items, total) => (items.GetOr([]), total.GetOr(0))
  }

  /** The response the API gives for `page`. */
  function Response<T>(table: seq<ApiResponse<T>>, start: int, page: int): ApiResponse<T>
  {
    if start <= page < start + |table| then table[page - start] else Body(None, None)
  }

  /** The lots `parse_lots` returns for `page`; only pages inside the table can have any. */
  function PageLots<T>(table: seq<ApiResponse<T>>, start: int, page: int): (r: seq<T>)
    ensures r != [] ==> start <= page < start + |table|
  {
    ParseLots(Response(table, start, page)).0
  }

  /** Python truthiness of `max_pages`: `None` and `0` impose no cap. */
  predicate Truthy(maxPages: Option<int>)
  {
    maxPages.Some? && maxPages.value != 0
  }

  /** The loop leaves after `page` once the page cap is reached. */
  predicate CapReached(maxPages: Option<int>, page: int)
  {
    Truthy(maxPages) && page >= maxPages.value
  }

  /** The lots collected from `page` on: an empty page adds nothing and ends the run, the cap ends it after its page. */
  function CollectFrom<T>(table: seq<ApiResponse<T>>, start: int, page: int, maxPages: Option<int>): seq<T>
    decreases start + |table| - page
  {
    var lots := PageLots(table, start, page);
    if lots == [] then []
    else if CapReached(maxPages, page) then lots
    else lots + CollectFrom(table, start, page + 1, maxPages)
  }

  /** The pages requested from `page` on, in request order. */
  function Fetched<T>(table: seq<ApiResponse<T>>, start: int, page: int, maxPages: Option<int>): seq<int>
    decreases start + |table| - page
  {
    var lots := PageLots(table, start, page);
    if lots == [] || CapReached(maxPages, page) then [page]
    else [page] + Fetched(table, start, page + 1, maxPages)
  }

  /** The lots of the `n` pages from `page` on, page after page. */
  function Flatten<T>(table: seq<ApiResponse<T>>, start: int, page: int, n: nat): seq<T>
    decreases n
  {
    if n == 0 then [] else PageLots(table, start, page) + Flatten(table, start, page + 1, n - 1)
  }

  /** How many non-empty pages follow `page` (inclusive) up to the first empty one. */
  function NonEmptyRun<T>(table: seq<ApiResponse<T>>, start: int, page: int): (n: nat)
    ensures PageLots(table, start, page + n) == []
    ensures forall p :: page <= p < page + n ==> PageLots(table, start, p) != []
    decreases start + |table| - page
  {
    if PageLots(table, start, page) == [] then 0
    else NonEmptyRun(table, start, page + 1) + 1
  }

  /**
   * `main`'s loop: fetch `page`, stop on an empty page, add its lots, stop at
   * the cap, otherwise go on with `page + 1`. Also returns the pages it fetched.
   */
  method Crawl<T>(table: seq<ApiResponse<T>>, start: int, maxPages: Option<int>) returns (all: seq<T>, fetched: seq<int>)
    ensures all == CollectFrom(table, start, start, maxPages)
    ensures fetched == Fetched(table, start, start, maxPages)
  {
    all, fetched := [], [];
    var page := start;
    while true
      invariant CollectFrom(table, start, start, maxPages) == all + CollectFrom(table, start, page, maxPages)
      invariant Fetched(table, start, start, maxPages) == fetched + Fetched(table, start, page, maxPages)
      decreases start + |table| - page
    {
      var (lots, total) := ParseLots(Response(table, start, page));
      CrawlStep(table, start, page, maxPages);
      AppendAssoc(fetched, [page], Fetched(table, start, page + 1, maxPages));
      AppendAssoc(all, lots, CollectFrom(table, start, page + 1, maxPages));
      fetched := fetched + [page];
      if |lots| == 0 {
        break;
      }
      all := all + lots;
      if CapReached(maxPages, page) {
        break;
      }
      page := page + 1;
    }
  }

  /** Concatenation regroups freely. */
  lemma AppendAssoc<X>(a: seq<X>, b: seq<X>, c: seq<X>)
    ensures (a + b) + c == a + (b + c)
  {
  }

  /** One iteration of `main`'s loop, read off `CollectFrom` and `Fetched`. */
  lemma CrawlStep<T>(table: seq<ApiResponse<T>>, start: int, page: int, maxPages: Option<int>)
    ensures var lots := PageLots(table, start, page);
      if lots == [] then
        CollectFrom(table, start, page, maxPages) == [] && Fetched(table, start, page, maxPages) == [page]
      else if CapReached(maxPages, page) then
        CollectFrom(table, start, page, maxPages) == lots && Fetched(table, start, page, maxPages) == [page]
      else
        page < start + |table| &&
        CollectFrom(table, start, page, maxPages) == lots + CollectFrom(table, start, page + 1, maxPages) &&
        Fetched(table, start, page, maxPages) == [page] + Fetched(table, start, page + 1, maxPages)
  {
  }

  /** Fetched page numbers are consecutive, starting at `page`: each iteration increments by one. */
  lemma {:induction false} FetchedConsecutive<T>(table: seq<ApiResponse<T>>, start: int, page: int, maxPages: Option<int>)
    ensures var f := Fetched(table, start, page, maxPages);
      |f| >= 1 && forall i :: 0 <= i < |f| ==> f[i] == page + i
    decreases start + |table| - page
  {
    var lots := PageLots(table, start, page);
    if !(lots == [] || CapReached(maxPages, page)) {
      FetchedConsecutive(table, start, page + 1, maxPages);
    }
  }

  /** The result is the lots of the fetched pages, in fetch order. */
  lemma {:induction false} CollectIsFetchedPages<T>(table: seq<ApiResponse<T>>, start: int, page: int, maxPages: Option<int>)
    ensures CollectFrom(table, start, page, maxPages) == Flatten(table, start, page, |Fetched(table, start, page, maxPages)|)
    decreases start + |table| - page
  {
    var lots := PageLots(table, start, page);
    if lots == [] || CapReached(maxPages, page) {
      assert Flatten(table, start, page + 1, 0) == [];
    } else {
      CollectIsFetchedPages(table, start, page + 1, maxPages);
    }
  }

  /** A truthy cap `m`: no page after `max(page, m)` is fetched, and when `page >= m` exactly one is. */
  lemma {:induction false} CapBoundsFetches<T>(table: seq<ApiResponse<T>>, start: int, page: int, maxPages: Option<int>)
    requires Truthy(maxPages)
    ensures var last := if page >= maxPages.value then page else maxPages.value;
      |Fetched(table, start, page, maxPages)| <= last - page + 1
    ensures page >= maxPages.value ==> |Fetched(table, start, page, maxPages)| == 1
    decreases start + |table| - page
  {
    var lots := PageLots(table, start, page);
    if !(lots == [] || CapReached(maxPages, page)) {
      CapBoundsFetches(table, start, page + 1, maxPages);
    }
  }

  /** With `start_page = max_pages = 1`, the collector makes exactly one request. */
  lemma DefaultCapSingleFetch<T>(table: seq<ApiResponse<T>>)
    ensures Fetched(table, 1, 1, Some(1)) == [1]
  {
    CapBoundsFetches(table, 1, 1, Some(1));
    FetchedConsecutive(table, 1, 1, Some(1));
  }

  /** `Flatten` over one more page that is empty adds nothing. */
  lemma {:induction false} FlattenEmptyLast<T>(table: seq<ApiResponse<T>>, start: int, page: int, n: nat)
    requires PageLots(table, start, page + n) == []
    ensures Flatten(table, start, page, n + 1) == Flatten(table, start, page, n)
    decreases n
  {
    if n == 0 {
      assert Flatten(table, start, page + 1, 0) == [];
      assert Flatten(table, start, page, 1) == PageLots(table, start, page) + [];
    } else {
      FlattenEmptyLast(table, start, page + 1, n - 1);
      assert Flatten(table, start, page, n + 1) == PageLots(table, start, page) + Flatten(table, start, page + 1, n);
      assert Flatten(table, start, page, n) == PageLots(table, start, page) + Flatten(table, start, page + 1, n - 1);
    }
  }

  /** Fetches without a cap run up to and including the first empty page. */
  lemma {:induction false} UncappedFetches<T>(table: seq<ApiResponse<T>>, start: int, page: int, maxPages: Option<int>)
    requires !Truthy(maxPages)
    ensures |Fetched(table, start, page, maxPages)| == NonEmptyRun(table, start, page) + 1
    decreases start + |table| - page
  {
    if PageLots(table, start, page) != [] {
      UncappedFetches(table, start, page + 1, maxPages);
    }
  }

  /**
   * With no cap (`max_pages` `None` or `0`), the result is the concatenation,
   * page by page and in order, of the pages before the first empty page.
   */
  lemma UncappedCollectsRun<T>(table: seq<ApiResponse<T>>, start: int, maxPages: Option<int>)
    requires !Truthy(maxPages)
    ensures var n := NonEmptyRun(table, start, start);
      CollectFrom(table, start, start, maxPages) == Flatten(table, start, start, n)
  {
    var n := NonEmptyRun(table, start, start);
    CollectIsFetchedPages(table, start, start, maxPages);
    UncappedFetches(table, start, start, maxPages);
    FlattenEmptyLast(table, start, start, n);
  }

  /**
   * An empty page `q` ends the run: nothing past it is fetched, and the pages
   * after it can be anything without changing the result.
   */
  lemma {:induction false} EmptyPageEndsRun<T>(t1: seq<ApiResponse<T>>, t2: seq<ApiResponse<T>>, start: int, page: int, q: int, maxPages: Option<int>)
    requires page <= q && PageLots(t1, start, q) == []
    requires forall p :: page <= p <= q ==> PageLots(t1, start, p) == PageLots(t2, start, p)
    ensures CollectFrom(t1, start, page, maxPages) == CollectFrom(t2, start, page, maxPages)
    ensures Fetched(t1, start, page, maxPages) == Fetched(t2, start, page, maxPages)
    ensures forall i :: 0 <= i < |Fetched(t1, start, page, maxPages)| ==> Fetched(t1, start, page, maxPages)[i] <= q
    decreases q - page
  {
    FetchedConsecutive(t1, start, page, maxPages);
    var lots := PageLots(t1, start, page);
    if !(lots == [] || CapReached(maxPages, page)) {
      EmptyPageEndsRun(t1, t2, start, page + 1, q, maxPages);
      FetchedConsecutive(t1, start, page + 1, maxPages);
    }
  }

  /** A failed request is an empty page: the run stops there and adds nothing. */
  lemma FailureStopsRun<T>(table: seq<ApiResponse<T>>, start: int, page: int, maxPages: Option<int>)
    requires Response(table, start, page).Failed?
    ensures CollectFrom(table, start, page, maxPages) == []
    ensures Fetched(table, start, page, maxPages) == [page]
  {
  }

  // ---------------------------------------------------------------------------
  // save_lots

  /** A line of the CSV file: the header row or one lot. */
  datatype CsvLine<T> = Header | Record(row: T)

  /** The lots of some CSV lines, header lines skipped. */
  function Records<T>(lines: seq<CsvLine<T>>): seq<T>
  {
    if lines == [] then []
    else (if lines[0].Record? then [lines[0].row] else []) + Records(lines[1..])
  }

  /** The lines `to_csv` writes for `lots`, without a header. */
  function RecordLines<T>(lots: seq<T>): seq<CsvLine<T>>
  {
    if lots == [] then [] else [Record(lots[0])] + RecordLines(lots[1..])
  }

  /** Line `i` written for `lots` is the record of `lots[i]`. */
  lemma {:induction false} RecordLinesAt<T>(lots: seq<T>)
    ensures |RecordLines(lots)| == |lots|
    ensures forall i :: 0 <= i < |lots| ==> RecordLines(lots)[i] == Record(lots[i])
    decreases |lots|
  {
    if lots != [] {
      var rest := RecordLines(lots[1..]);
      RecordLinesAt(lots[1..]);
      assert RecordLines(lots) == [Record(lots[0])] + rest;
      forall i | 1 <= i < |lots|
        ensures RecordLines(lots)[i] == Record(lots[i])
      {
        assert RecordLines(lots)[i] == rest[i - 1];
        assert lots[1..][i - 1] == lots[i];
      }
    }
  }

  lemma {:induction false} RecordsConcat<T>(a: seq<CsvLine<T>>, b: seq<CsvLine<T>>)
    ensures Records(a + b) == Records(a) + Records(b)
    decreases |a|
  {
    if a == [] {
      assert a + b == b;
    } else {
      var ab := a + b;
      assert ab[0] == a[0] && ab[1..] == a[1..] + b;
      RecordsConcat(a[1..], b);
      assert Records(ab) == (if a[0].Record? then [a[0].row] else []) + Records(a[1..] + b);
    }
  }

  /** Reading back the lines written for `lots` gives `lots`. */
  lemma {:induction false} RecordsOfRecordLines<T>(lots: seq<T>)
    ensures Records(RecordLines(lots)) == lots
    decreases |lots|
  {
    if lots != [] {
      RecordsOfRecordLines(lots[1..]);
    }
  }

  /** The CSV file `suspicious_purchases.csv`: whether it exists, and its lines. */
  class CsvStore<T> {
    var fileExists: bool
    var lines: seq<CsvLine<T>>

    /** A header only as the first line, and no lines before the file exists. */
    ghost predicate Valid()
      reads this
    {
      (!fileExists ==> lines == [])
      && forall i :: 0 < i < |lines| ==> lines[i].Record?
    }

    /** The lots stored so far, in append order. */
    ghost function Rows(): seq<T>
      reads this
    {
      Records(lines)
    }

    /** No file yet. */
    constructor ()
      ensures Valid() && !fileExists && lines == []
    {
      fileExists := false;
      lines := [];
    }

    /** `save_lots`: append mode, with the header only when the file did not exist. */
    method SaveLots(lots: seq<T>)
      requires Valid()
      modifies this
      ensures Valid() && fileExists
      ensures lines == Appended(old(lines), old(fileExists), lots)
      ensures Rows() == old(Rows()) + lots
    {
      AppendRecords(lines, fileExists, lots);
      AppendKeepsHeaderFirst(lines, fileExists, lots);
      lines := Appended(lines, fileExists, lots);
      fileExists := true;
    }
  }

  /** The lines after appending `lots`: a header first when the file did not exist. */
  function Appended<T>(lines: seq<CsvLine<T>>, existed: bool, lots: seq<T>): seq<CsvLine<T>>
  {
    lines + (if existed then [] else [Header]) + RecordLines(lots)
  }

  /** An append adds exactly `lots` to the stored rows, after the old ones. */
  lemma AppendRecords<T>(lines: seq<CsvLine<T>>, existed: bool, lots: seq<T>)
    ensures Records(Appended(lines, existed, lots)) == Records(lines) + lots
  {
    var header: seq<CsvLine<T>> := if existed then [] else [Header];
    var records := RecordLines(lots);
    assert Records(header) == [] by {
      if !existed {
        assert header[1..] == [];
      }
    }
    calc {
      Records(Appended(lines, existed, lots));
      { assert Appended(lines, existed, lots) == lines + (header + records); }
      Records(lines + (header + records));
      { RecordsConcat(lines, header + records); }
      Records(lines) + Records(header + records);
      { RecordsConcat(header, records); }
      Records(lines) + (Records(header) + Records(records));
      { RecordsOfRecordLines(lots); }
      Records(lines) + ([] + lots);
      { assert [] + lots == lots; }
      Records(lines) + lots;
    }
  }

  /** The header is written only into a new file, so it never appears after the first line. */
  lemma AppendKeepsHeaderFirst<T>(lines: seq<CsvLine<T>>, existed: bool, lots: seq<T>)
    requires !existed ==> lines == []
    requires forall i :: 0 < i < |lines| ==> lines[i].Record?
    ensures forall i :: 0 < i < |Appended(lines, existed, lots)| ==> Appended(lines, existed, lots)[i].Record?
  {
    var after := Appended(lines, existed, lots);
    var records := RecordLines(lots);
    RecordLinesAt(lots);
    forall i | 0 < i < |after|
      ensures after[i].Record?
    {
      if existed {
        assert after == lines + records;
        if i >= |lines| {
          assert after[i] == records[i - |lines|];
        }
      } else {
        assert after == [Header] + records;
        assert after[i] == records[i - 1];
      }
    }
  }

  /**
   * `main(start_page, max_pages)`: collect, and when anything was collected
   * make one append of all of it to the store; otherwise leave the store as it is.
   */
  method Run<T>(store: CsvStore<T>, table: seq<ApiResponse<T>>, start: int, maxPages: Option<int>) returns (all: seq<T>)
    requires store.Valid()
    modifies store
    ensures store.Valid()
    ensures all == CollectFrom(table, start, start, maxPages)
    ensures all == [] ==> store.lines == old(store.lines) && store.fileExists == old(store.fileExists)
    ensures all != [] ==>
      store.fileExists && store.lines == Appended(old(store.lines), old(store.fileExists), all)
    ensures store.Rows() == old(store.Rows()) + all
  {
    var fetched;
    all, fetched := Crawl(table, start, maxPages);
    if |all| > 0 {
      store.SaveLots(all);
    }
  }
}
