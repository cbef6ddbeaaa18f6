/** Page arithmetic of the image wall: how many pages there are and which
    page each image belongs to. `math.ceil(a / b)` on floats is modelled by
    integer ceiling division; the page size must be positive. */
module Pagination {

  /** `ceil(n / d)` for a positive divisor: the least `q` with `n <= q * d`. */
  function CeilDiv(n: nat, d: nat): (q: nat)
    requires d > 0
    ensures q * d >= n
    ensures q > 0 ==> (q - 1) * d < n
  {
    var q := (n + d - 1) / d;
    var r := (n + d - 1) % d;
    assert n + d - 1 == q * d + r;
    assert q > 0 ==> (q - 1) * d == q * d - d;
    q
  }

  /** `total_pages`: ceiling of count over page size, and 1 for an empty list. */
  function TotalPages(n: nat, perPage: nat): (t: nat)
    requires perPage > 0
    ensures t >= 1
    ensures n == 0 ==> t == 1
    ensures n > 0 ==> (t - 1) * perPage < n <= t * perPage
  {
    if n == 0 then 1 else CeilDiv(n, perPage)
  }

  /** The page tag of the image at 1-based position `i`. */
  function PageOf(i: nat, perPage: nat): (p: nat)
    requires i >= 1 && perPage > 0
    ensures p >= 1
    ensures (p - 1) * perPage < i <= p * perPage
  {
    CeilDiv(i, perPage)
  }

  lemma MulMonotone(a: int, b: int, k: nat)
    requires a <= b
    ensures a * k <= b * k
  {
  }

  /** The page bounds pin the page down: position `i` lies in the window
      `((p - 1) * perPage, p * perPage]` of exactly one page `p`. */
  lemma PageWindow(i: nat, perPage: nat, p: int)
    requires i >= 1 && perPage > 0
    ensures PageOf(i, perPage) == p <==> (p - 1) * perPage < i <= p * perPage
  {
    var q := PageOf(i, perPage);
    if (p - 1) * perPage < i <= p * perPage && q != p {
      if q < p {
        MulMonotone(q, p - 1, perPage);
      } else {
        MulMonotone(p, q - 1, perPage);
      }
    }
  }

  /** The same window for 0-based positions: image `j` is on page `p` exactly
      when `j` lies in `[lo, lo + perPage)` with `lo == (p - 1) * perPage`. */
  lemma PageWindowFrom(j: nat, perPage: nat, p: int, lo: int)
    requires perPage > 0 && lo == (p - 1) * perPage
    ensures PageOf(j + 1, perPage) == p <==> lo <= j < lo + perPage
  {
    assert p * perPage == lo + perPage by {
      assert (p - 1) * perPage == p * perPage - perPage;
    }
    PageWindow(j + 1, perPage, p);
  }

  /** Tags never decrease along the list. */
  lemma PageMonotone(i: nat, j: nat, perPage: nat)
    requires 1 <= i <= j && perPage > 0
    ensures PageOf(i, perPage) <= PageOf(j, perPage)
  {
    var p, q := PageOf(i, perPage), PageOf(j, perPage);
    if p > q {
      MulMonotone(q, p - 1, perPage);
    }
  }

  /** Every image of a list of `n` is tagged with a page in `[1, TotalPages]`. */
  lemma PageInRange(i: nat, n: nat, perPage: nat)
    requires 1 <= i <= n && perPage > 0
    ensures 1 <= PageOf(i, perPage) <= TotalPages(n, perPage)
  {
    PageMonotone(i, n, perPage);
    PageWindow(n, perPage, TotalPages(n, perPage));
  }

  /** The first page holds exactly the first `perPage` positions. */
  lemma FirstPage(i: nat, perPage: nat)
    requires i >= 1 && perPage > 0
    ensures PageOf(i, perPage) == 1 <==> i <= perPage
  {
    PageWindow(i, perPage, 1);
  }

  /** The last page is not empty: its first position lies within the list. */
  lemma LastPageOccupied(n: nat, perPage: nat)
    requires n > 0 && perPage > 0
    ensures PageOf(n, perPage) == TotalPages(n, perPage)
  {
    PageWindow(n, perPage, TotalPages(n, perPage));
  }

  /** The integers in `[lo, hi)`. */
  function Range(lo: int, hi: int): (r: set<int>)
    ensures forall x :: x in r <==> lo <= x < hi
    decreases hi - lo
  {
    if lo >= hi then {} else {lo} + Range(lo + 1, hi)
  }

  lemma {:induction false} RangeSize(lo: int, hi: int)
    requires lo <= hi
    ensures |Range(lo, hi)| == hi - lo
    decreases hi - lo
  {
    if lo < hi {
      RangeSize(lo + 1, hi);
      assert lo !in Range(lo + 1, hi);
    }
  }

  lemma SubsetSize(a: set<int>, b: set<int>)
    requires a <= b
    ensures |a| <= |b|
  {
    assert b == a + (b - a);
  }

  /** No page holds more than `perPage` of the first `n` positions. */
  lemma PageCapacity(n: nat, perPage: nat, p: int)
    requires perPage > 0
    ensures |set i: int | 1 <= i <= n && PageOf(i, perPage) == p| <= perPage
  {
    var onPage := set i: int | 1 <= i <= n && PageOf(i, perPage) == p;
    var lo := (p - 1) * perPage;
    assert p * perPage == lo + perPage by {
      assert (p - 1) * perPage == p * perPage - perPage;
    }
    var window := Range(lo + 1, lo + perPage + 1);
    assert onPage <= window by {
      forall i | i in onPage
        ensures lo < i <= lo + perPage
      {
        PageWindow(i, perPage, p);
      }
    }
    RangeSize(lo + 1, lo + perPage + 1);
    SubsetSize(onPage, window);
  }

  /** The previous and next links: `true` is "shown". */
  datatype Links = Links(prevShown: bool, nextShown: bool)

  /** The links as `showPage(page)` sets them. */
  function LinksFor(page: int, totalPages: int): (r: Links)
    ensures r.prevShown <==> page > 1
    ensures r.nextShown <==> page < totalPages
  {
    Links(page > 1, page < totalPages)
  }

  /** `generate_pagination_links`: the previous link always starts hidden and
      the next link is hidden when there is at most one page. */
  function PaginationLinks(totalPages: int): (r: Links)
    ensures !r.prevShown
    ensures r.nextShown <==> totalPages > 1
  {
    Links(false, if totalPages <= 1 then false else true)
  }

  /** The generated links agree with what `showPage(1)` would set. */
  lemma InitialLinksAreFirstPage(totalPages: int)
    ensures PaginationLinks(totalPages) == LinksFor(1, totalPages)
  {
  }
}
