/** Cutting an ordered listing into pages, as every feed does through
    `get_page`: a paginator with a fixed page length, no orphans and an
    allowed empty first page, asked for the page named by the `page` query
    parameter. */
module Pagination {
  import opened Wrappers

  datatype Page<T> = Page(number: nat, items: seq<T>, numPages: nat)

  /** The number of pages a listing of `count` items fills: at least one,
      even for an empty listing. */
  function NumPages(count: nat, perPage: nat): (n: nat)
    requires perPage > 0
    ensures 1 <= n
    ensures count <= n * perPage
    ensures (n - 1) * perPage < count || (count == 0 && n == 1)
  {
    var hits := if count == 0 then 1 else count;
    var q := (hits + perPage - 1) / perPage;
    var r := (hits + perPage - 1) % perPage;
    assert hits + perPage - 1 == q * perPage + r;
    assert (q - 1) * perPage == q * perPage - perPage;
    q
  }

  /** Page `n` of `s`: the items from `(n - 1) * perPage` up to the next
      page boundary or the end of the listing. */
  function PageSlice<T>(s: seq<T>, perPage: nat, n: nat): (r: seq<T>)
    requires perPage > 0 && 1 <= n <= NumPages(|s|, perPage)
    ensures |r| <= perPage
    ensures n < NumPages(|s|, perPage) ==> |r| == perPage
    ensures s != [] ==> |r| > 0
  {
    var bottom := PageStart(|s|, perPage, n);
    var top := if bottom + perPage >= |s| then |s| else bottom + perPage;
    s[bottom..top]
  }

  /** Where page `n` starts: never past the end of the listing, and strictly
      before it when the listing is not empty. */
  function PageStart(count: nat, perPage: nat, n: nat): (bottom: nat)
    requires perPage > 0 && 1 <= n <= NumPages(count, perPage)
    ensures bottom == (n - 1) * perPage
    ensures bottom <= count && (count > 0 ==> bottom < count)
    ensures n < NumPages(count, perPage) ==> bottom + perPage < count
  {
    var total := NumPages(count, perPage);
    MulMonotone(n - 1, total - 1, perPage);
    assert n < total ==> (n - 1) * perPage + perPage <= (total - 1) * perPage by {
      if n < total {
        MulMonotone(n, total - 1, perPage);
        assert n * perPage == (n - 1) * perPage + perPage;
      }
    }
    (n - 1) * perPage
  }

  lemma MulMonotone(a: nat, b: nat, c: nat)
    requires a <= b
    ensures a * c <= b * c
  {
  }

  /** `Paginator.get_page`: a missing or non-integer page number (`None`)
      gives the first page, and a number outside `1..numPages` gives the
      last page. */
  function GetPage<T>(s: seq<T>, perPage: nat, number: Option<int>): (p: Page<T>)
    requires perPage > 0
    ensures p.numPages == NumPages(|s|, perPage)
    ensures 1 <= p.number <= p.numPages
    ensures number.Some? && 1 <= number.value <= p.numPages ==> p.number == number.value
    ensures p.items == PageSlice(s, perPage, p.number)
  {
    var total := NumPages(|s|, perPage);
    var n := match number
      case None => 1
      case Some(k) => if 1 <= k <= total then k else total;
    Page(n, PageSlice(s, perPage, n), total)
  }

  /** Pages 1 through `n`, laid end to end. */
  function PagesThrough<T>(s: seq<T>, perPage: nat, n: nat): seq<T>
    requires perPage > 0 && n <= NumPages(|s|, perPage)
  {
    if n == 0 then [] else PagesThrough(s, perPage, n - 1) + PageSlice(s, perPage, n)
  }

  /** The first `n` pages are exactly the first `n * perPage` items (or all
      of them): pages are consecutive slices, with no gap and no overlap. */
  lemma {:induction false} PagesThroughIsPrefix<T>(s: seq<T>, perPage: nat, n: nat)
    requires perPage > 0 && n <= NumPages(|s|, perPage)
    ensures PagesThrough(s, perPage, n) == s[..if n * perPage < |s| then n * perPage else |s|]
  {
    if n > 0 {
      PagesThroughIsPrefix(s, perPage, n - 1);
      var bottom := PageStart(|s|, perPage, n);
      assert n * perPage == bottom + perPage;
      assert (n - 1) * perPage < |s| || |s| == 0;
      var top := if bottom + perPage >= |s| then |s| else bottom + perPage;
      assert s[..bottom] + s[bottom..top] == s[..top];
    }
  }

  /** All the pages together give back the whole listing, in order. */
  lemma AllPagesCoverListing<T>(s: seq<T>, perPage: nat)
    requires perPage > 0
    ensures PagesThrough(s, perPage, NumPages(|s|, perPage)) == s
  {
    PagesThroughIsPrefix(s, perPage, NumPages(|s|, perPage));
    assert s[..|s|] == s;
  }

  /** A listing one item longer than a page fills two pages: a full first
      page and a second page holding the last item. */
  lemma OneMoreThanAPage<T>(s: seq<T>, perPage: nat)
    requires perPage > 0 && |s| == perPage + 1
    ensures NumPages(|s|, perPage) == 2
    ensures PageSlice(s, perPage, 1) == s[..perPage]
    ensures PageSlice(s, perPage, 2) == [s[perPage]]
  {
    var n := NumPages(|s|, perPage);
    assert n * perPage >= perPage + 1;
    assert (n - 1) * perPage < perPage + 1;
    if n >= 3 {
      MulMonotone(2, n - 1, perPage);
    }
  }
}
