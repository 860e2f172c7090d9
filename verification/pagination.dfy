/** The pagination engine shared by the three listings: normalisation of the
    requested page, the Skip/Take slice, and the `PageResult` shape with its
    derived navigation values. */
module Pagination {

  /** Page size used when the request asks for less than one item. */
  const DefaultPageSize: int := 10
  /** Largest page size a request can obtain. */
  const MaxPageSize: int := 100

  function Min(a: int, b: int): int
  {
    if a <= b then a else b
  }

  /** Integer ceiling of `a / b`; stands for `Math.Ceiling((double)a / b)`. */
  function CeilDiv(a: nat, b: nat): (n: nat)
    requires b >= 1
    ensures n * b >= a
    ensures n == 0 || (n - 1) * b < a
  {
    var q := (a + b - 1) / b;
    assert a + b - 1 == q * b + (a + b - 1) % b;
    assert (q - 1) * b == q * b - b;
    q
  }

  /** `PageResult<T>`: one page of a listing plus the size of the whole
      filtered collection. */
  datatype PageResult<T> = PageResult(items: seq<T>, page: int, pageSize: int, total: nat)
  {
    /** `TotalPages`: the least number of pages of `pageSize` items that
        hold `total` items. */
    function TotalPages(): (n: nat)
      requires pageSize >= 1
      ensures n * pageSize >= total
      ensures n == 0 || (n - 1) * pageSize < total
    {
      CeilDiv(total, pageSize)
    }

    /** `HasNext`. */
    predicate HasNext()
      requires pageSize >= 1
    {
      page < TotalPages()
    }

    /** `HasPrevious`. */
    predicate HasPrevious()
    {
      page > 1
    }
  }

  lemma MulLeft(a: int, b: int, c: int)
    requires a <= b && c >= 0
    ensures a * c <= b * c
  {
    assert b * c - a * c == (b - a) * c;
  }

  /** There is a next page exactly when some item lies beyond the end of
      this one. */
  lemma HasNextIffItemsRemain<T>(r: PageResult<T>)
    requires r.pageSize >= 1 && r.page >= 0
    ensures r.HasNext() <==> r.page * r.pageSize < r.total
  {
    var n := r.TotalPages();
    if r.page < n {
      MulLeft(r.page, n - 1, r.pageSize);
    } else {
      MulLeft(n, r.page, r.pageSize);
    }
  }

  /** An empty listing has no pages, and from its first page there is
      nowhere to go. */
  lemma EmptyListing<T>(r: PageResult<T>)
    requires r.pageSize >= 1 && r.page >= 1
    requires r.total == 0
    ensures r.TotalPages() == 0
    ensures !r.HasNext()
    ensures r.HasPrevious() <==> r.page != 1
  {
  }

  /** Among the pages 1..TotalPages, the last one is the only one without a
      next page. */
  lemma LastPageHasNoNext<T>(r: PageResult<T>)
    requires r.pageSize >= 1
    requires 1 <= r.page <= r.TotalPages()
    ensures !r.HasNext() <==> r.page == r.TotalPages()
  {
  }

  /** Skip((page - 1) * pageSize).Take(pageSize) over `rows`, reported with
      the count of all rows. */
  function Paginate<T>(rows: seq<T>, page: int, pageSize: int): (r: PageResult<T>)
    requires page >= 1 && pageSize >= 1
    ensures r.page == page && r.pageSize == pageSize && r.total == |rows|
    ensures |r.items| == if (page - 1) * pageSize >= |rows| then 0
                         else Min(pageSize, |rows| - (page - 1) * pageSize)
    ensures forall i :: 0 <= i < |r.items| ==> r.items[i] == rows[(page - 1) * pageSize + i]
  {
    var skip := (page - 1) * pageSize;
    var rest := if skip < |rows| then rows[skip..] else [];
    var taken := if pageSize < |rest| then rest[..pageSize] else rest;
    PageResult(taken, page, pageSize, |rows|)
  }

  /** Every item of a page is one of the rows. */
  lemma PageWithinRows<T>(rows: seq<T>, page: int, pageSize: int)
    requires page >= 1 && pageSize >= 1
    ensures forall x :: x in Paginate(rows, page, pageSize).items ==> x in rows
  {
    var items := Paginate(rows, page, pageSize).items;
    forall x | x in items ensures x in rows {
      var i :| 0 <= i < |items| && items[i] == x;
      assert rows[(page - 1) * pageSize + i] == x;
    }
  }

  /** A page is the contiguous block of rows between its first index and
      the first index of the next page, clipped to the rows that exist. */
  lemma PageIsSlice<T>(rows: seq<T>, page: int, pageSize: int)
    requires page >= 1 && pageSize >= 1
    ensures Paginate(rows, page, pageSize).items
         == rows[Min((page - 1) * pageSize, |rows|)..Min(page * pageSize, |rows|)]
  {
    assert page * pageSize == (page - 1) * pageSize + pageSize;
  }

  /** Flattens a sequence of pages, in order. */
  function Concat<T>(pages: seq<seq<T>>): seq<T>
  {
    if pages == [] then [] else Concat(pages[..|pages| - 1]) + pages[|pages| - 1]
  }

  /** The items of pages 1..k, in page order. */
  function FirstPages<T>(rows: seq<T>, pageSize: int, k: nat): seq<seq<T>>
    requires pageSize >= 1
  {
    seq(k, i requires 0 <= i < k => Paginate(rows, i + 1, pageSize).items)
  }

  /** Pages 1..k together are exactly the first k * pageSize rows (or all of
      them, if there are fewer). */
  lemma {:induction false} FirstPagesArePrefix<T>(rows: seq<T>, pageSize: int, k: nat)
    requires pageSize >= 1
    ensures Concat(FirstPages(rows, pageSize, k)) == rows[..Min(k * pageSize, |rows|)]
  {
    if k > 0 {
      var pages := FirstPages(rows, pageSize, k);
      var earlier := FirstPages(rows, pageSize, k - 1);
      assert pages[..k - 1] == earlier;
      assert Concat(pages) == Concat(earlier) + pages[k - 1];
      FirstPagesArePrefix(rows, pageSize, k - 1);
      PageIsSlice(rows, k, pageSize);
      PageBoundsGrow(k, pageSize, |rows|);
      SliceJoin(rows, Min((k - 1) * pageSize, |rows|), Min(k * pageSize, |rows|));
    }
  }

  /** The clipped start of page k is no later than its clipped end. */
  lemma PageBoundsGrow(k: int, pageSize: int, n: nat)
    requires k >= 1 && pageSize >= 1
    ensures 0 <= Min((k - 1) * pageSize, n) <= Min(k * pageSize, n) <= n
  {
    assert k * pageSize == (k - 1) * pageSize + pageSize;
  }

  /** Two adjacent slices of a prefix make up the prefix. */
  lemma SliceJoin<T>(rows: seq<T>, lo: int, hi: int)
    requires 0 <= lo <= hi <= |rows|
    ensures rows[..lo] + rows[lo..hi] == rows[..hi]
  {
  }

  /** Pages 1..TotalPages partition the rows: read in order they give back
      every row exactly once, in the listing's order, and every later page is
      empty. */
  lemma PagesPartitionRows<T>(rows: seq<T>, pageSize: int)
    requires pageSize >= 1
    ensures var n := Paginate(rows, 1, pageSize).TotalPages();
            && Concat(FirstPages(rows, pageSize, n)) == rows
            && forall p :: p > n ==> Paginate(rows, p, pageSize).items == []
  {
    var n := Paginate(rows, 1, pageSize).TotalPages();
    FirstPagesArePrefix(rows, pageSize, n);
    assert rows[..|rows|] == rows;
    forall p | p > n ensures Paginate(rows, p, pageSize).items == [] {
      MulLeft(n, p - 1, pageSize);
    }
  }

  /** Every row appears on the page its index determines, at the position
      its index determines. */
  lemma RowOnItsPage<T>(rows: seq<T>, pageSize: int, i: int)
    requires pageSize >= 1 && 0 <= i < |rows|
    ensures var r := Paginate(rows, i / pageSize + 1, pageSize);
            && i % pageSize < |r.items|
            && r.items[i % pageSize] == rows[i]
  {
    var q := i / pageSize;
    assert i == q * pageSize + i % pageSize;
    assert (q + 1 - 1) * pageSize == q * pageSize;
  }

  /** Page normalisation of the use cases: any page number below 1 becomes 1. */
  function NormalizePage(pageNumber: int): (page: int)
    ensures page >= 1
    ensures pageNumber >= 1 ==> page == pageNumber
    ensures pageNumber < 1 ==> page == 1
  {
    if pageNumber < 1 then 1 else pageNumber
  }

  /** Page-size normalisation of the use cases: below 1 becomes the default
      size, above the maximum becomes the maximum. */
  function NormalizePageSize(pageSize: int): (size: int)
    ensures 1 <= size <= MaxPageSize
    ensures 1 <= pageSize <= MaxPageSize ==> size == pageSize
    ensures pageSize < 1 ==> size == DefaultPageSize
    ensures pageSize > MaxPageSize ==> size == MaxPageSize
  {
    if pageSize < 1 then DefaultPageSize
    else if pageSize > MaxPageSize then MaxPageSize
    else pageSize
  }

  /** Normalising twice is normalising once. */
  lemma NormalizeIdempotent(pageNumber: int, pageSize: int)
    ensures NormalizePage(NormalizePage(pageNumber)) == NormalizePage(pageNumber)
    ensures NormalizePageSize(NormalizePageSize(pageSize)) == NormalizePageSize(pageSize)
  {
  }
}
