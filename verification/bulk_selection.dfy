/** The per-page selection map of the `Table` component and the "select the
    first N rows" request that fills it, page by page, from the current page on.
    A page's entry is a count `c`: the rows at positions `0 .. c - 1` of that
    page are the selected ones. */
module BulkSelection {
  import opened Wrappers

  /** Rows per page, the literal the request writes with. */
  const CAP: nat := 12

  /** Page number (0-based) to number of selected leading rows. */
  type PageMap = map<int, nat>

  /** The request passes the guard: a number (not NaN) that is positive. */
  predicate Accepted(request: Option<int>)
  {
    request.Some? && request.value > 0
  }

  /** Number of pages a request for `n` rows spans: the ceiling of `n / CAP`. */
  function PageCount(n: int): (k: nat)
    requires n > 0
    ensures k >= 1
  {
    (n + CAP - 1) / CAP
  }

  /** `PageCount` is the least number of full pages that hold `n` rows. */
  lemma PageCountBounds(n: int)
    requires n > 0
    ensures CAP * (PageCount(n) - 1) < n <= CAP * PageCount(n)
  {
  }

  /** The count a request for `n` rows leaves on the `i`-th page it touches:
      a full page everywhere except the last, which takes what is left. */
  function Quota(n: int, i: int): (c: nat)
    requires n > 0 && 0 <= i < PageCount(n)
    ensures 1 <= c <= CAP
    ensures i < PageCount(n) - 1 ==> c == CAP
    ensures i == PageCount(n) - 1 ==> c == n - CAP * (PageCount(n) - 1)
  {
    PageCountBounds(n);
    if i < PageCount(n) - 1 then CAP else n - CAP * (PageCount(n) - 1)
  }

  /** The entries a request for `n` rows writes when issued on page `start`,
      stated in closed form (independent of the loop that writes them). */
  function Layout(start: int, n: int): PageMap
    requires n > 0
  {
    map p | start <= p < start + PageCount(n) :: QuotaOn(start, n, p)
  }

  /** `Quota` addressed by page number rather than by offset from `start`. */
  function QuotaOn(start: int, n: int, p: int): nat
    requires n > 0 && start <= p < start + PageCount(n)
  {
    Quota(n, p - start)
  }

  /** Sum of the counts on the `j` pages `start .. start + j - 1`; an absent
      page contributes nothing. */
  function PagesTotal(m: PageMap, start: int, j: nat): nat
  {
    if j == 0 then 0
    else PagesTotal(m, start, j - 1) + (if start + j - 1 in m then m[start + j - 1] else 0)
  }

  /** Two maps that agree on a range of pages have the same total on it. */
  lemma {:induction false} PagesTotalFrame(m: PageMap, m': PageMap, start: int, j: nat)
    requires forall p :: start <= p < start + j ==> (p in m <==> p in m')
    requires forall p :: start <= p < start + j && p in m ==> m[p] == m'[p]
    ensures PagesTotal(m, start, j) == PagesTotal(m', start, j)
  {
    if j > 0 {
      PagesTotalFrame(m, m', start, j - 1);
    }
  }

  /** `r` is `m` with the pages `start .. page - 1` overwritten by the
      request's quotas and every other page left as it was. */
  ghost predicate WrittenUpTo(r: PageMap, m: PageMap, start: int, page: int, n: int)
    requires n > 0 && start <= page <= start + PageCount(n)
  {
    && (forall p :: p in r <==> p in m || start <= p < page)
    && (forall p :: start <= p < page ==> r[p] == QuotaOn(start, n, p))
    && (forall p :: p in m && !(start <= p < page) ==> r[p] == m[p])
  }

  /** One iteration of the loop: the amount written on the `i`-th page is its
      quota, and what remains afterwards is the next page's starting amount. */
  lemma StepAmount(n: int, i: int)
    requires n > 0 && 0 <= i < PageCount(n)
    ensures Min(CAP, n - CAP * i) == Quota(n, i)
    ensures n - CAP * i - Quota(n, i) == if i + 1 < PageCount(n) then n - CAP * (i + 1) else 0
  {
    PageCountBounds(n);
  }

  lemma StepWrites(r: PageMap, m: PageMap, start: int, page: int, n: int)
    requires n > 0 && start <= page < start + PageCount(n)
    requires WrittenUpTo(r, m, start, page, n)
    ensures WrittenUpTo(r[page := Quota(n, page - start)], m, start, page + 1, n)
  {
  }

  lemma WrittenAll(r: PageMap, m: PageMap, start: int, n: int)
    requires n > 0 && WrittenUpTo(r, m, start, start + PageCount(n), n)
    ensures r == m + Layout(start, n)
  {
    var l := Layout(start, n);
    assert forall p :: p in r <==> p in m + l;
    assert forall p :: p in r ==> r[p] == (m + l)[p];
  }

  /** Writing the selection request into the map (Table.tsx, the click handler
      of the "Submit" button). A rejected request returns the map as it was;
      an accepted one overwrites exactly the pages `start .. start + k - 1`,
      where `k` is the number of pages needed, with full pages and a final
      partial one, and keeps every other page's entry. */
  method BulkSelect(m: PageMap, start: int, request: Option<int>) returns (r: PageMap)
    ensures !Accepted(request) ==> r == m
    ensures Accepted(request) ==> r == m + Layout(start, request.value)
    ensures Accepted(request) ==>
      forall p :: p in r <==> p in m || start <= p < start + PageCount(request.value)
    ensures Accepted(request) ==>
      forall p :: start <= p < start + PageCount(request.value) ==> 1 <= r[p] <= CAP
    ensures Accepted(request) ==>
      forall p :: p in m && !(start <= p < start + PageCount(request.value)) ==> r[p] == m[p]
    ensures Accepted(request) ==>
      PagesTotal(r, start, PageCount(request.value)) == request.value
  {
    if request.None? || request.value <= 0 {
      return m;
    }
    var n := request.value;
    var remaining := n;
    var page := start;
    ghost var k := PageCount(n);
    r := m;
    while remaining > 0
      invariant start <= page <= start + k
      invariant remaining == if page < start + k then n - CAP * (page - start) else 0
      invariant WrittenUpTo(r, m, start, page, n)
      invariant PagesTotal(r, start, page - start) == n - remaining
      decreases remaining
    {
      StepAmount(n, page - start);
      StepWrites(r, m, start, page, n);
      var r' := r[page := Min(CAP, remaining)];
      PagesTotalFrame(r, r', start, page - start);
      r := r';
      remaining := remaining - r[page];
      page := page + 1;
    }
    WrittenAll(r, m, start, n);
  }

  /** Every page a request writes except the last holds a full page, the last
      holds the remainder in `[1, CAP]`, and the counts add up to the request. */
  lemma {:induction false} QuotaTotal(start: int, n: int, j: nat)
    requires n > 0 && j <= PageCount(n)
    ensures PagesTotal(Layout(start, n), start, j) == if j < PageCount(n) then CAP * j else n
  {
    if j > 0 {
      QuotaTotal(start, n, j - 1);
      PageCountBounds(n);
      assert start + j - 1 in Layout(start, n);
      assert Layout(start, n)[start + j - 1] == Quota(n, j - 1);
    }
  }

  /** The pages one accepted request writes sum to exactly the request. */
  lemma LayoutTotal(start: int, n: int)
    requires n > 0
    ensures PagesTotal(Layout(start, n), start, PageCount(n)) == n
  {
    QuotaTotal(start, n, PageCount(n));
  }

  /** Issuing the same accepted request twice leaves the same map as once.
      This is the general fact that overriding a map twice with the same
      entries is overriding it once; nothing here depends on `Layout`. */
  lemma BulkSelectIdempotent(m: PageMap, start: int, n: int)
    requires n > 0
    ensures (m + Layout(start, n)) + Layout(start, n) == m + Layout(start, n)
  {
  }

  /** Selecting 20 rows from page 0 fills page 0 and puts 8 rows on page 1. */
  lemma TwentyFromFirstPage()
    ensures Layout(0, 20) == map[0 := 12, 1 := 8]
  {
    assert PageCount(20) == 2;
  }

  /** Selecting exactly one page's worth of rows from page 2 touches page 2 only. */
  lemma OnePageFromThirdPage()
    ensures Layout(2, 12) == map[2 := 12]
  {
    assert PageCount(12) == 1;
  }
}
