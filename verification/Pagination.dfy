/** The strip of page links with elided stretches (usePagination.ts). */
module Pagination {
  import opened Wrappers

  const MIN_SIDE_ITEMS: int := 3
  const CENTER_ITEMS: int := 5

  datatype Item = Page(n: int) | Dots

  /** lodash.range with two arguments counts down when the end is below the start. */
  function Range(start: int, end: int): (r: seq<Item>)
    ensures |r| == if start <= end then end - start else start - end
    ensures forall i | 0 <= i < |r| :: r[i] == Page(if start <= end then start + i else start - i)
  {
    if start <= end then seq(end - start, i => Page(start + i))
    else seq(start - end, i => Page(start - i))
  }

  function Max(a: int, b: int): int {
    if a < b then b else a
  }

  function Min(a: int, b: int): int {
    if a < b then a else b
  }

  /** Math.ceil of the quotient. */
  function PageCount(totalCount: nat, pageSize: nat): (n: nat)
    requires pageSize > 0
  {
    (totalCount + pageSize - 1) / pageSize
  }

  /** The strip for n pages; None is the undefined result of running off the end. */
  function Strip(n: int, siblings: int, current: int): Option<seq<Item>> {
    if siblings + CENTER_ITEMS >= n then Some(Range(1, n + 1))
    else
      var left := Max(current - siblings, 1);
      var right := Min(current + siblings, n + 1);
      var leftDots := left > 2;
      var rightDots := right < n - 2;
      if !leftDots && rightDots then Some(Range(1, MIN_SIDE_ITEMS + 2 * siblings + 1) + [Dots, Page(n)])
      else if leftDots && !rightDots then Some([Page(1), Dots] + Range(n - (MIN_SIDE_ITEMS + 2 * siblings) + 1, n + 1))
      else if leftDots && rightDots then Some([Page(1), Dots] + Range(left, right + 1) + [Dots, Page(n)])
      else None
  }

  function PaginationRange(totalCount: nat, pageSize: nat, current: int, siblings: int): Option<seq<Item>>
    requires pageSize > 0
  {
    Strip(PageCount(totalCount, pageSize), siblings, current)
  }

  /** The fewest pages that hold all the entries. */
  lemma PageCountIsLeast(totalCount: nat, pageSize: nat)
    requires pageSize > 0
    ensures var n := PageCount(totalCount, pageSize);
      n * pageSize >= totalCount && forall m: nat | m * pageSize >= totalCount :: n <= m
  {
    var n := PageCount(totalCount, pageSize);
    var x := totalCount + pageSize - 1;
    assert x == n * pageSize + x % pageSize;
    forall m: nat | m < n
      ensures m * pageSize < totalCount
    {
      ProductGrows(m + 1, n, pageSize);
      assert (m + 1) * pageSize == m * pageSize + pageSize;
    }
  }

  lemma ProductGrows(a: nat, b: nat, c: nat)
    requires a <= b
    ensures a * c <= b * c
  {
  }

  /** The item at i is a page, or dots between two pages that leave out at least one. */
  predicate GoodAt(strip: seq<Item>, i: int)
    requires 0 <= i < |strip|
  {
    match strip[i]
    case Page(p) =>
      i + 1 < |strip| && strip[i + 1].Page? ==> strip[i + 1].n == p + 1
    case Dots =>
      0 < i < |strip| - 1 && strip[i - 1].Page? && strip[i + 1].Page? && strip[i - 1].n + 1 < strip[i + 1].n
  }

  /**
   Runs of consecutive pages separated by dots that hide at least one page each, from page 1 to page n;
   every page within `siblings` of the current one is listed.
   */
  predicate WellFormed(strip: seq<Item>, n: int, siblings: int, current: int) {
    && (n >= 1 ==> strip != [] && strip[0] == Page(1) && strip[|strip| - 1] == Page(n))
    && (forall i | 0 <= i < |strip| :: GoodAt(strip, i))
    && (forall p | Max(current - siblings, 1) <= p <= Min(current + siblings, n) :: Page(p) in strip)
  }

  predicate Elided(strip: seq<Item>) {
    Dots in strip
  }

  /** Pages increase strictly along a well-formed strip. */
  lemma {:induction false} PagesIncrease(strip: seq<Item>, i: int, j: int)
    requires forall k | 0 <= k < |strip| :: GoodAt(strip, k)
    requires 0 <= i < j < |strip| && strip[i].Page? && strip[j].Page?
    ensures strip[i].n < strip[j].n
    decreases j - i
  {
    assert GoodAt(strip, i);
    if i + 1 < j {
      if strip[i + 1].Page? {
        PagesIncrease(strip, i + 1, j);
      } else {
        assert GoodAt(strip, i + 1);
        if i + 2 < j {
          PagesIncrease(strip, i + 2, j);
        }
      }
    } else {
      assert GoodAt(strip, i);
    }
  }

  lemma InRange(start: int, end: int, p: int)
    requires start <= p < end
    ensures Page(p) in Range(start, end)
  {
    assert Range(start, end)[p - start] == Page(p);
  }

  /** The counts for which the strip is always right. */
  predicate Covered(n: int, siblings: int) {
    n <= siblings + CENTER_ITEMS || n >= 2 * siblings + CENTER_ITEMS
  }

  /** The code runs off its end exactly in this band. */
  lemma FallsThroughIff(n: nat, siblings: nat, current: int)
    requires 1 <= current <= n
    ensures Strip(n, siblings, current).None?
       <==> siblings + 5 < n <= 2 * siblings + 4 && n - 2 - siblings <= current <= siblings + 2
  {
  }

  /** A full or elided strip is well formed for every current page exactly when the counts are covered. */
  lemma StripWellFormedIff(n: nat, siblings: nat, current: int)
    requires 1 <= current <= n
    ensures Strip(n, siblings, current).Some? && WellFormed(Strip(n, siblings, current).value, n, siblings, current)
       <==> Covered(n, siblings)
  {
    if Covered(n, siblings) {
      CoveredIsWellFormed(n, siblings, current);
    } else {
      UncoveredIsNot(n, siblings, current);
    }
  }

  lemma SiblingsListed(n: nat, siblings: nat, current: int, p: int)
    requires 1 <= current <= n && Covered(n, siblings)
    requires Max(current - siblings, 1) <= p <= Min(current + siblings, n)
    ensures Strip(n, siblings, current).Some? && Page(p) in Strip(n, siblings, current).value
  {
    var left := Max(current - siblings, 1);
    if siblings + CENTER_ITEMS >= n {
      InRange(1, n + 1, p);
    } else if left <= 2 {
      InRange(1, MIN_SIDE_ITEMS + 2 * siblings + 1, p);
    } else if current + siblings >= n - 2 {
      InRange(n - (MIN_SIDE_ITEMS + 2 * siblings) + 1, n + 1, p);
    } else {
      InRange(left, current + siblings + 1, p);
    }
  }

  lemma RightElidedGood(side: int, n: int)
    requires 1 <= side && side + 1 < n
    ensures var strip := Range(1, side + 1) + [Dots, Page(n)];
      strip[0] == Page(1) && strip[|strip| - 1] == Page(n) && forall i | 0 <= i < |strip| :: GoodAt(strip, i)
  {
  }

  lemma LeftElidedGood(from: int, n: int)
    requires 2 < from <= n
    ensures var strip := [Page(1), Dots] + Range(from, n + 1);
      strip[0] == Page(1) && strip[|strip| - 1] == Page(n) && forall i | 0 <= i < |strip| :: GoodAt(strip, i)
  {
  }

  lemma BothElidedGood(left: int, right: int, n: int)
    requires 2 < left <= right && right + 1 < n
    ensures var strip := [Page(1), Dots] + Range(left, right + 1) + [Dots, Page(n)];
      strip[0] == Page(1) && strip[|strip| - 1] == Page(n) && forall i | 0 <= i < |strip| :: GoodAt(strip, i)
  {
  }

  lemma CoveredIsWellFormed(n: nat, siblings: nat, current: int)
    requires 1 <= current <= n && Covered(n, siblings)
    ensures Strip(n, siblings, current).Some?
    ensures WellFormed(Strip(n, siblings, current).value, n, siblings, current)
  {
    var side := MIN_SIDE_ITEMS + 2 * siblings;
    var left, right := Max(current - siblings, 1), Min(current + siblings, n + 1);
    if siblings + CENTER_ITEMS < n {
      if left <= 2 {
        RightElidedGood(side, n);
      } else if right >= n - 2 {
        LeftElidedGood(n - side + 1, n);
      } else {
        BothElidedGood(left, right, n);
      }
    }
    forall p | left <= p <= Min(current + siblings, n)
      ensures Page(p) in Strip(n, siblings, current).value
    {
      SiblingsListed(n, siblings, current, p);
    }
  }

  lemma UncoveredIsNot(n: nat, siblings: nat, current: int)
    requires 1 <= current <= n && !Covered(n, siblings)
    ensures Strip(n, siblings, current).None? || !WellFormed(Strip(n, siblings, current).value, n, siblings, current)
  {
    if Strip(n, siblings, current).Some? {
      var strip := Strip(n, siblings, current).value;
      var side := MIN_SIDE_ITEMS + 2 * siblings;
      if current <= siblings + 2 {
        assert strip[side] == Dots && strip[side - 1] == Page(side) && strip[side + 1] == Page(n);
        assert !GoodAt(strip, side);
      } else {
        assert strip[1] == Dots && strip[0] == Page(1) && strip[2] == Page(n - side + 1);
        assert !GoodAt(strip, 1);
      }
    }
  }

  /** An elided strip always has the same number of cells, so the control does not jump while paging. */
  lemma ElidedLength(n: nat, siblings: nat, current: int)
    requires 1 <= current <= n && Covered(n, siblings)
    ensures var strip := Strip(n, siblings, current).value;
      if Elided(strip) then |strip| == 2 * siblings + 5 else |strip| == n <= siblings + 5
  {
    var strip := Strip(n, siblings, current).value;
    if n > siblings + CENTER_ITEMS {
      assert Dots in [Dots, Page(n)];
      assert strip[1] == Dots || strip[|strip| - 2] == Dots;
    }
  }

  /**
   For so many entries on pages of that size, the computation yields a strip over all pages, with every sibling
   of the current page, exactly when the number of pages is covered.
   */
  lemma WellFormedIff(totalCount: nat, pageSize: nat, siblings: nat, current: int)
    requires pageSize > 0
    requires 1 <= current <= PageCount(totalCount, pageSize)
    ensures var n := PageCount(totalCount, pageSize);
      var strip := PaginationRange(totalCount, pageSize, current, siblings);
      strip.Some? && WellFormed(strip.value, n, siblings, current) <==> Covered(n, siblings)
  {
    StripWellFormedIff(PageCount(totalCount, pageSize), siblings, current);
  }

  /** Eight pages with two siblings: on page 4 there is no strip at all. */
  lemma EightPagesFallThrough()
    ensures Strip(8, 2, 4).None?
    ensures PageCount(80, 10) == 8 && PaginationRange(80, 10, 4, 2).None?
  {
    FallsThroughIff(8, 2, 4);
  }

  /** Where the dots stand: in second place when the siblings start after page 2, before the last when they end early. */
  lemma DotsExact(n: nat, siblings: nat, current: int)
    requires 1 <= current <= n && Strip(n, siblings, current).Some?
    ensures var strip := Strip(n, siblings, current).value;
      if n <= siblings + 5 then
        |strip| == n && forall i | 0 <= i < n :: strip[i] == Page(i + 1)
      else
        && |strip| >= 5
        && (strip[1] == Dots <==> current - siblings > 2)
        && (strip[|strip| - 2] == Dots <==> current + siblings < n - 2)
        && strip[0] == Page(1) && strip[|strip| - 1] == Page(n)
        && forall i | 1 < i < |strip| - 2 :: strip[i].Page?
  {
  }
}
