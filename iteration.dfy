/** Repeated `fetch()` calls over a paged search: how many times `fetch` returns true before it returns
    false, for a directory that hands out a fixed sequence of pages. */
module Iteration {
  import opened Wrappers
  import opened Ldap
  import opened Paging
  import opened ReaderSpec

  /** One page as the directory hands it out: its entries and the cookie returned with it. */
  datatype Page = Page(entries: seq<Entry>, cookie: seq<byte>)

  /** The parts of a page request that stay fixed while `fetch` pages through one query. */
  datatype Search = Search(
    base: Option<string>,
    filter: Option<string>,
    attributes: Option<seq<Option<string>>>,
    size: int,
    critical: char)

  function SearchOf(s: ReaderState): Search
  {
    Search(s.searchBase, s.searchFilter, s.requestedAttributes, s.pageSize, s.pagingCritical)
  }

  /** The request for search `q` that carries `cookie`. */
  function RequestAfter(q: Search, cookie: seq<byte>): SearchRequest
  {
    SearchRequest(q.base, q.filter, q.attributes, PageControl(q.size, cookie, q.critical))
  }

  /** The total number of entries on the pages. */
  function EntryCount(pages: seq<Page>): nat
  {
    if pages == [] then 0 else |pages[0].entries| + EntryCount(pages[1..])
  }

  /** The directory answers search `q` with `pages`, one after the other: every page but the last has
      entries and a non-empty cookie, the last has an empty cookie, and the request carrying the cookie
      of one page is answered with the next page. The page size is at least 1, since with a smaller
      one no request reaches the directory. */
  ghost predicate Serves(d: Directory, q: Search, pages: seq<Page>)
  {
    && q.size >= 1
    && |pages| > 0
    && (forall k :: 0 <= k < |pages| - 1 ==> pages[k].cookie != [] && pages[k].entries != [])
    && pages[|pages| - 1].cookie == []
    && (forall k :: 0 <= k < |pages| - 1 ==>
          d.search(RequestAfter(q, pages[k].cookie)) == Paged(pages[k + 1].entries, pages[k + 1].cookie))
  }

  /** The reader holds page `k` of search `q` and has handed out the first `i` of its entries. */
  ghost predicate At(s: ReaderState, q: Search, pages: seq<Page>, k: nat, i: nat)
  {
    && k < |pages|
    && SearchOf(s) == q
    && s.result == Some(pages[k].entries)
    && s.cookie == pages[k].cookie
    && s.morePages == (k < |pages| - 1)
    && i <= |pages[k].entries|
    && s.entry == (if i == 0 then None else Some(EntryRef(pages[k].entries, i - 1)))
  }

  /** The entries not yet handed out from position (`k`, `i`). */
  function Remaining(pages: seq<Page>, k: nat, i: nat): nat
    requires k < |pages| && i <= |pages[k].entries|
  {
    |pages[k].entries| - i + EntryCount(pages[k + 1..])
  }

  /** What `n` successive `fetch` calls return. */
  function FetchRun(s: ReaderState, d: Directory, n: nat): seq<Result<bool, Error>>
    decreases n
  {
    if n == 0 then [] else var r := Fetch(s, d); [r.1] + FetchRun(r.0, d, n - 1)
  }

  function Trues(n: nat): seq<Result<bool, Error>>
  {
    seq(n, _ => Ok(true))
  }

  lemma EntryCountFrom(pages: seq<Page>, k: nat)
    requires k < |pages|
    ensures EntryCount(pages[k..]) == |pages[k].entries| + EntryCount(pages[k + 1..])
  {
    assert pages[k..][1..] == pages[k + 1..];
  }

  /** The page after a used-up page `k` that is not the last: the request carries page `k`'s cookie and
      the directory's answer becomes the reader's state, positioned before the first entry. */
  lemma NextPage(s: ReaderState, d: Directory, q: Search, pages: seq<Page>, k: nat)
    requires k < |pages| - 1 && Serves(d, q, pages) && At(s, q, pages, k, |pages[k].entries|)
    ensures var (s2, o) := PageSearch(s.(entry := None), d);
      o.Pass? && At(s2, q, pages, k + 1, 0)
  {
    var s1 := s.(entry := None);
    assert Request(s1) == RequestAfter(q, pages[k].cookie);
    var (s2, o) := PageSearch(s1, d);
    assert s2.cookie == pages[k + 1].cookie;
    assert s2.morePages <==> k + 1 < |pages| - 1;
  }

  /** A `fetch` with entries remaining returns true and hands out exactly one more entry. */
  lemma {:induction false} FetchStep(s: ReaderState, d: Directory, q: Search, pages: seq<Page>, k: nat, i: nat)
    returns (k': nat, i': nat)
    requires Serves(d, q, pages) && At(s, q, pages, k, i) && Remaining(pages, k, i) > 0
    ensures Fetch(s, d).1 == Ok(true)
    ensures At(Fetch(s, d).0, q, pages, k', i') && Remaining(pages, k', i') == Remaining(pages, k, i) - 1
  {
    var n := |pages|;
    if i == 0 {
      if pages[k].entries == [] {
        assert false;
      }
      k', i' := k, 1;
    } else if i < |pages[k].entries| {
      k', i' := k, i + 1;
    } else {
      if k == n - 1 {
        assert false;
      }
      NextPage(s, d, q, pages, k);
      EntryCountFrom(pages, k + 1);
      var (s2, o) := PageSearch(s.(entry := None), d);
      if pages[k + 1].entries == [] {
        assert false;
      }
      assert Fetch(s, d) == Fetch(s2, d);
      k', i' := k + 1, 1;
    }
  }

  /** A `fetch` with no entries remaining returns false and leaves the entry pointer NULL on the last
      page. */
  lemma {:induction false} FetchEnd(s: ReaderState, d: Directory, q: Search, pages: seq<Page>, k: nat, i: nat)
    requires Serves(d, q, pages) && At(s, q, pages, k, i) && Remaining(pages, k, i) == 0
    ensures Fetch(s, d).1 == Ok(false)
    ensures Fetch(s, d).0.entry.None? && Fetch(s, d).0.result == Some(pages[|pages| - 1].entries)
  {
    var n := |pages|;
    if i == 0 || k == n - 1 {
      assert k == n - 1;
    } else {
      NextPage(s, d, q, pages, k);
      EntryCountFrom(pages, k + 1);
      assert k + 1 == n - 1;
      var (s2, o) := PageSearch(s.(entry := None), d);
      assert Fetch(s, d) == Fetch(s2, d);
    }
  }

  /** From any position, `fetch` returns true once for every remaining entry and then false. */
  lemma {:induction false} FetchRunFrom(s: ReaderState, d: Directory, q: Search, pages: seq<Page>, k: nat, i: nat)
    requires Serves(d, q, pages) && At(s, q, pages, k, i)
    ensures FetchRun(s, d, Remaining(pages, k, i) + 1) == Trues(Remaining(pages, k, i)) + [Ok(false)]
    decreases Remaining(pages, k, i)
  {
    var m := Remaining(pages, k, i);
    if m == 0 {
      FetchEnd(s, d, q, pages, k, i);
    } else {
      var k', i' := FetchStep(s, d, q, pages, k, i);
      FetchRunFrom(Fetch(s, d).0, d, q, pages, k', i');
      assert Trues(m) == [Ok(true)] + Trues(m - 1);
    }
  }

  /** With the reader holding the first page and no current entry, and no page but the last empty,
      `fetch` returns true exactly once per entry of all the pages, then false. */
  lemma FetchDeliversEveryEntry(s: ReaderState, d: Directory, pages: seq<Page>)
    requires Serves(d, SearchOf(s), pages)
    requires s.result == Some(pages[0].entries) && s.cookie == pages[0].cookie
    requires s.morePages == MorePages(pages[0].cookie) && s.entry.None?
    ensures FetchRun(s, d, EntryCount(pages) + 1) == Trues(EntryCount(pages)) + [Ok(false)]
  {
    EntryCountFrom(pages, 0);
    assert pages[0..] == pages;
    FetchRunFrom(s, d, SearchOf(s), pages, 0, 0);
  }

  /** A query on a reader with no current entry, whose first page request (carrying the cookie the
      reader already holds) is answered with the first of `pages`: it succeeds, and the `fetch` calls
      after it return true once per entry of all the pages, then false. */
  lemma QueryThenFetchEveryEntry(s: ReaderState, d: Directory, filter: string, base: string, names: seq<string>, pages: seq<Page>)
    requires s.entry.None? && |names| <= MaxAttributes
    requires var q := Search(Some(base), Some(filter), AttributeList(names), s.pageSize, s.pagingCritical);
      && Serves(d, q, pages)
      && d.search(RequestAfter(q, s.cookie)) == Paged(pages[0].entries, pages[0].cookie)
    ensures Query(s, d, filter, base, names).1 == Pass
    ensures FetchRun(Query(s, d, filter, base, names).0, d, EntryCount(pages) + 1) == Trues(EntryCount(pages)) + [Ok(false)]
  {
    var p := Prepared(s, filter, base, names);
    assert Request(p) == RequestAfter(SearchOf(p), s.cookie);
    FetchDeliversEveryEntry(Query(s, d, filter, base, names).0, d, pages);
  }

  /** After the last `true`, `fetch` returns false, and the call after that starts again at the first
      entry of the last page: false is not final. */
  lemma FetchAfterFalseRestarts(s: ReaderState, d: Directory, q: Search, pages: seq<Page>, k: nat, i: nat)
    requires Serves(d, q, pages) && At(s, q, pages, k, i) && Remaining(pages, k, i) == 0
    ensures var s' := Fetch(s, d).0;
      Fetch(s', d).1 == Ok(pages[|pages| - 1].entries != [])
  {
    FetchEnd(s, d, q, pages, k, i);
  }

  /** An empty page whose cookie announces more pages ends the iteration: `fetch` returns false
      although more pages are available, and the pages after it are never requested. */
  lemma EmptyPageEndsIteration(s: ReaderState, d: Directory, cookie: seq<byte>)
    requires s.result.Some? && s.entry.Some? && s.entry.value.index + 1 >= |s.entry.value.page| && s.morePages
    requires s.pageSize >= 1 && d.search(Request(s.(entry := None))) == Paged([], cookie) && cookie != []
    ensures Fetch(s, d).1 == Ok(false) && Fetch(s, d).0.morePages && Fetch(s, d).0.entry.None?
  {
    FetchRecursesOnce(s, d);
  }
}
