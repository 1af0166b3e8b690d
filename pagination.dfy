/**
 * Page arithmetic of the feeds: the fixed page size of the views, the
 * FakePaginator the view tests use to predict page counts, and the page
 * slice that Django's Paginator.get_page serves.
 */
module Pagination {
  import opened Wrappers
  import opened Text

  /** Posts shown on one page of every feed. */
  const NumberDisplayedPosts: nat := 10

  /** Multiplying by a positive number keeps a non-zero factor at least that far from 0. */
  lemma MulBounds(x: int, per: int)
    requires per > 0
    ensures x >= 1 ==> x * per >= per
    ensures x <= -1 ==> x * per <= -per
  {
  }

  /** Two multiples of `per` closer than `per` to each other are the same multiple. */
  lemma SameMultiple(a: int, b: int, per: int)
    requires per > 0 && -per < a * per - b * per < per
    ensures a == b
  {
    assert a * per - b * per == (a - b) * per;
    MulBounds(a - b, per);
  }

  /** Quotient and remainder in range are Dafny's `/` and `%` (for `per > 0` also Python's `//` and `%`). */
  lemma DivModUnique(n: int, per: int, d: int, r: int)
    requires per > 0 && 0 <= r < per && n == d * per + r
    ensures n / per == d && n % per == r
  {
    var q := n / per;
    assert n == q * per + n % per;
    SameMultiple(d, q, per);
  }

  /**
   * The view tests' paginator: `recordsNumber` records shown
   * `recordsPerPage` to a page (10 unless the test says otherwise).
   */
  datatype FakePaginator = FakePaginator(recordsNumber: int, recordsPerPage: int)
  {
    /**
     * `math.ceil(records_number / records_per_page)`: the number of pages,
     * computed as `-((-n) // per)`.
     */
    function Pages(): (k: int)
      requires recordsPerPage > 0
      ensures (k - 1) * recordsPerPage < recordsNumber <= k * recordsPerPage
    {
      var q := (-recordsNumber) / recordsPerPage;
      assert -recordsNumber == q * recordsPerPage + (-recordsNumber) % recordsPerPage;
      assert (-q) * recordsPerPage == -(q * recordsPerPage);
      -q
    }

    /** The remainder of the records over the page size, or a full page when it is 0. */
    function RecordsInLastPage(): (r: int)
      requires recordsPerPage > 0
      ensures 1 <= r <= recordsPerPage
      ensures (recordsNumber - r) % recordsPerPage == 0
    {
      var n, per := recordsNumber, recordsPerPage;
      var number := n % per;
      assert n == (n / per) * per + number;
      if number == 0 then
        assert n - per == (n / per - 1) * per;
        DivModUnique(n - per, per, n / per - 1, 0);
        per
      else
        DivModUnique(n - number, per, n / per, 0);
        number
    }
  }

  /** The records_per_page the view tests use: the views' page size. */
  function Paginated(records: int): FakePaginator
  {
    FakePaginator(records, NumberDisplayedPosts)
  }

  /** For no records there are no pages, yet the last page is reported full. */
  lemma EmptyPaginator(perPage: int)
    requires perPage > 0
    ensures FakePaginator(0, perPage).Pages() == 0
    ensures FakePaginator(0, perPage).RecordsInLastPage() == perPage
  {
    DivModUnique(0, perPage, 0, 0);
  }

  /** With at least one record, the full pages and the last page add up to all records. */
  lemma LastPageReconstruction(p: FakePaginator)
    requires p.recordsPerPage > 0 && p.recordsNumber > 0
    ensures (p.Pages() - 1) * p.recordsPerPage + p.RecordsInLastPage() == p.recordsNumber
  {
    var n, per, k, r := p.recordsNumber, p.recordsPerPage, p.Pages(), p.RecordsInLastPage();
    var e := (n - r) / per;
    assert n - r == e * per + (n - r) % per;
    assert (k - 1) * per == k * per - per;
    SameMultiple(e, k - 1, per);
  }

  /**
   * One more record makes the last page one record longer exactly when the
   * last page was not full; the view tests' "post added" check relies on it.
   */
  lemma LastPageGrowth(n: int, perPage: int)
    requires perPage > 0
    ensures FakePaginator(n + 1, perPage).RecordsInLastPage() == FakePaginator(n, perPage).RecordsInLastPage() + 1
        <==> n % perPage != 0
  {
    var m := n % perPage;
    assert n == (n / perPage) * perPage + m;
    if m + 1 < perPage {
      DivModUnique(n + 1, perPage, n / perPage, m + 1);
    } else {
      assert n + 1 == (n / perPage + 1) * perPage + 0;
      DivModUnique(n + 1, perPage, n / perPage + 1, 0);
    }
  }

  /**
   * Django's Paginator.num_pages for a list of `count` items (no orphans,
   * empty first page allowed): an empty list still has one, empty, page.
   */
  function NumPages(count: nat): (k: nat)
    ensures k >= 1
    ensures count > 0 ==> k == Paginated(count).Pages()
    ensures count == 0 ==> k == 1
  {
    var k := Paginated(if count == 0 then 1 else count).Pages();
    k
  }

  /**
   * The page number Paginator.get_page serves, taken as the policy of the
   * framework: a missing or non-integer `page` parameter (None) is page 1, and a
   * number below 1 or above the last page is the last page.
   */
  function ServedPage(count: nat, requested: Option<int>): (k: nat)
    ensures 1 <= k <= NumPages(count)
  {
    match requested
    case None => 1
    case Some(n) => if 1 <= n <= NumPages(count) then n else NumPages(count)
  }

  /**
   * `paginator_get_page`: the slice of an already ordered list shown on the
   * served page, NumberDisplayedPosts items to a page.
   */
  function GetPage<T>(items: seq<T>, requested: Option<int>): (page: seq<T>)
    ensures |page| <= NumberDisplayedPosts
    ensures multiset(page) <= multiset(items)
  {
    var k := ServedPage(|items|, requested);
    var lo := (k - 1) * NumberDisplayedPosts;
    var hi := Min(lo + NumberDisplayedPosts, |items|);
    assert lo <= hi;
    assert items == items[..lo] + items[lo..hi] + items[hi..];
    items[lo..hi]
  }

  /** Page `k` of a list, for a `k` the paginator serves as asked. */
  lemma PageSlice<T>(items: seq<T>, k: nat)
    requires 1 <= k <= NumPages(|items|)
    ensures (k - 1) * NumberDisplayedPosts <= |items|
    ensures GetPage(items, Some(k))
         == items[(k - 1) * NumberDisplayedPosts..Min(k * NumberDisplayedPosts, |items|)]
  {
  }

  /** The first page holds the ten newest items, or all of them when there are fewer. */
  lemma FirstPage<T>(items: seq<T>)
    ensures |items| >= NumberDisplayedPosts ==> GetPage(items, Some(1)) == items[..NumberDisplayedPosts]
    ensures |items| < NumberDisplayedPosts ==> GetPage(items, Some(1)) == items
  {
    PageSlice(items, 1);
  }

  /**
   * The page the view tests request as the last one (FakePaginator.pages())
   * holds FakePaginator.records_in_last_page() items, for any non-empty list.
   */
  lemma LastPageHoldsRemainder<T>(items: seq<T>)
    requires |items| > 0
    ensures |GetPage(items, Some(Paginated(|items|).Pages()))| == Paginated(|items|).RecordsInLastPage()
  {
    var p := Paginated(|items|);
    var k := p.Pages();
    PageSlice(items, k);
    LastPageReconstruction(p);
  }

  /**
   * For an empty list the FakePaginator's prediction is wrong: it asks for
   * page 0 and expects 10 items, and the served page is empty.
   */
  lemma EmptyFeedQuirk<T>()
    ensures Paginated(0).Pages() == 0
    ensures |GetPage<T>([], Some(Paginated(0).Pages()))| == 0
    ensures Paginated(0).RecordsInLastPage() == NumberDisplayedPosts
  {
    EmptyPaginator(NumberDisplayedPosts);
  }

  /** The pages 1..k one after another. */
  function PagesUpTo<T>(items: seq<T>, k: nat): seq<T>
  {
    if k == 0 then [] else PagesUpTo(items, k - 1) + GetPage(items, Some(k))
  }

  /** The first `k` pages are the first `10 * k` items: no item is skipped or repeated. */
  lemma {:induction false} PagesUpToPrefix<T>(items: seq<T>, k: nat)
    requires k <= NumPages(|items|)
    ensures PagesUpTo(items, k) == items[..Min(k * NumberDisplayedPosts, |items|)]
  {
    if k > 0 {
      PagesUpToPrefix(items, k - 1);
      PageSlice(items, k);
      var lo := (k - 1) * NumberDisplayedPosts;
      var hi := Min(k * NumberDisplayedPosts, |items|);
      assert Min(lo, |items|) == lo;
      PrefixThenSlice(items, lo, hi);
    }
  }

  lemma PrefixThenSlice<T>(s: seq<T>, a: nat, b: nat)
    requires a <= b <= |s|
    ensures s[..a] + s[a..b] == s[..b]
  {
  }

  /** All pages together are the whole feed, in order. */
  lemma {:induction false} PagesCoverFeed<T>(items: seq<T>)
    ensures PagesUpTo(items, NumPages(|items|)) == items
  {
    var k := NumPages(|items|);
    var hi := Min(k * NumberDisplayedPosts, |items|);
    assert hi == |items| by {
      if |items| > 0 {
        assert |items| <= Paginated(|items|).Pages() * NumberDisplayedPosts;
      }
    }
    PagesUpToPrefix(items, k);
    assert PagesUpTo(items, k) == items[..hi];
    assert items[..hi] == items;
  }
}
