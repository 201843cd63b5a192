/** Turning the stored count of the page in view into the list of selected
    rows (Table.tsx, `manualSelection`). The loop there pushes `products[i]`
    for every `i` below the page's count, so a count larger than the loaded
    page yields `undefined` entries, modelled here as `None`. */
module Projection {
  import opened Wrappers
  import opened BulkSelection

  /** A JavaScript array read: past the end it yields `undefined`. */
  function At<T>(products: seq<T>, i: nat): (v: Option<T>)
    ensures i < |products| <==> v.Some?
    ensures v.Some? ==> v.value == products[i]
  {
    if i < |products| then Some(products[i]) else None
  }

  /** The rows the loop pushes for a count `c`, in push order. */
  function Rows<T>(products: seq<T>, c: nat): (r: seq<Option<T>>)
    ensures |r| == c
    ensures forall i :: 0 <= i < c ==> r[i] == At(products, i)
    decreases c
  {
    if c == 0 then [] else Rows(products, c - 1) + [At(products, c - 1)]
  }

  /** The count stored for `page`; an absent page counts as zero, because
      `i < undefined` is false and the loop never runs. */
  function CountOn(m: PageMap, page: int): (c: nat)
    ensures page !in m ==> c == 0
    ensures page in m ==> c == m[page]
  {
    if page in m then m[page] else 0
  }

  /** The selection shown for `page`: one entry per selected leading row,
      holding the loaded row at that position or `undefined` past the end. */
  function Project<T>(m: PageMap, page: int, products: seq<T>): (r: seq<Option<T>>)
    ensures page !in m ==> r == []
    ensures page in m ==> |r| == m[page]
    ensures forall i :: 0 <= i < |r| && i < |products| ==> r[i] == Some(products[i])
    ensures forall i :: |products| <= i < |r| ==> r[i] == None
  {
    Rows(products, CountOn(m, page))
  }

  /** Every element of `s`, present. */
  function Lift<T>(s: seq<T>): (r: seq<Option<T>>)
    ensures |r| == |s|
    ensures forall i :: 0 <= i < |s| ==> r[i] == Some(s[i])
  {
    seq(|s|, i requires 0 <= i < |s| => Some(s[i]))
  }

  /** When the page's count does not exceed the loaded rows, the projection is
      exactly the leading `count` rows of the page, with no `undefined`. */
  lemma ProjectLoadedPrefix<T>(m: PageMap, page: int, products: seq<T>)
    requires page in m && m[page] <= |products|
    ensures Project(m, page, products) == Lift(products[..m[page]])
  {
  }

  /** A request leaves the projection of every page outside the range it
      writes as it was, for the same loaded rows. */
  lemma ProjectOutsideRange<T>(m: PageMap, start: int, n: int, page: int, products: seq<T>)
    requires n > 0
    requires !(start <= page < start + PageCount(n))
    ensures Project(m + Layout(start, n), page, products) == Project(m, page, products)
  {
  }

  /** After an accepted request for `n` rows issued on page `start`, that page
      shows one entry for each of its first `min(n, CAP)` positions, whatever
      it held before: the loaded row there, or `undefined` when fewer rows are
      loaded (before the first fetch returns, or on a short last page). */
  lemma ProjectAfterRequest<T>(m: PageMap, start: int, n: int, products: seq<T>)
    requires n > 0
    ensures Project(m + Layout(start, n), start, products) == Rows(products, Min(n, CAP))
    ensures Min(n, CAP) <= |products| ==>
      Project(m + Layout(start, n), start, products) == Lift(products[..Min(n, CAP)])
  {
    PageCountBounds(n);
    var r := m + Layout(start, n);
    assert start in Layout(start, n);
    assert r[start] == Quota(n, 0) == Min(n, CAP);
    if Min(n, CAP) <= |products| {
      ProjectLoadedPrefix(r, start, products);
    }
  }
}
