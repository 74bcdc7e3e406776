// The arithmetic of getAllUsers: query-parameter defaults, the offset, the page count and
// the neighbouring pages, and the window `ORDER BY id LIMIT limit OFFSET offset` selects.
module Pagination {
  import opened Wrappers

  const DefaultPage := 1
  const DefaultLimit := 10

  /**
   * `parseInt(raw) || fallback`: a parameter that does not parse (None, for NaN) or
   * parses to 0 is falsy and gives way to the fallback; any other integer, negative
   * ones included, is kept.
   */
  function OrDefault(parsed: Option<int>, fallback: int): (r: int)
    requires fallback != 0
    ensures r != 0
    ensures parsed.Some? && parsed.value != 0 ==> r == parsed.value
    ensures parsed.None? || parsed.value == 0 ==> r == fallback
  {
    if parsed.Some? && parsed.value != 0 then parsed.value else fallback
  }

  /** `(page - 1) * limit`: page 1 starts at record 0, and each page starts `limit` records after the one before. */
  function Offset(page: int, limit: int): (r: int)
    ensures page == 1 ==> r == 0
    ensures limit > 0 ==> (r < 0 <==> page < 1)
    ensures r + limit == page * limit
  {
    (page - 1) * limit
  }

  /** `Math.ceil(n / d)` for a positive divisor: the least count of pages of size d holding n. */
  function CeilDiv(n: nat, d: int): (r: nat)
    requires d > 0
    ensures r * d >= n
    ensures r == 0 || (r - 1) * d < n
    decreases n
  {
    if n == 0 then 0
    else if n <= d then 1
    else
      var q := CeilDiv(n - d, d);
      assert (q + 1) * d == q * d + d;
      q + 1
  }

  /** The `pagination` object of a successful listing. */
  datatype PageInfo = PageInfo(
    totalUsers: nat,
    totalPages: nat,
    currentPage: int,
    pageSize: int,
    nextPage: Option<int>,
    prevPage: Option<int>)

  /** The metadata of a listing of `totalUsers` records, page `page`, `limit` per page. */
  function Paginate(totalUsers: nat, page: int, limit: int): (p: PageInfo)
    requires limit > 0
    ensures p.totalUsers == totalUsers && p.currentPage == page && p.pageSize == limit
    ensures p.totalPages * limit >= totalUsers
    ensures p.totalPages == 0 || (p.totalPages - 1) * limit < totalUsers
    ensures p.nextPage.Some? <==> page < p.totalPages
    ensures p.nextPage.Some? ==> p.nextPage.value == page + 1
    ensures p.prevPage.Some? <==> page > 1
    ensures p.prevPage.Some? ==> p.prevPage.value == page - 1
  {
    var totalPages := CeilDiv(totalUsers, limit);
    PageInfo(totalUsers, totalPages, page, limit,
             if page < totalPages then Some(page + 1) else None,
             if page > 1 then Some(page - 1) else None)
  }

  /**
   * On a page that exists, the links are null exactly at the ends: no next page on the
   * last page and no previous page on the first.
   */
  lemma PageLinksAtEnds(totalUsers: nat, page: int, limit: int)
    requires limit > 0
    requires 1 <= page <= Paginate(totalUsers, page, limit).totalPages
    ensures Paginate(totalUsers, page, limit).nextPage.None? <==> page == Paginate(totalUsers, page, limit).totalPages
    ensures Paginate(totalUsers, page, limit).prevPage.None? <==> page == 1
  {
  }

  /** A product with a positive factor has the sign of the other factor. */
  lemma PositiveFactor(x: int, c: int)
    requires c > 0
    ensures x * c >= 0 ==> x >= 0
    ensures x * c > 0 ==> x > 0
  {
  }

  /**
   * If the window of page `page` starts inside the table, the page is one of the
   * `pages` pages, for any page count large enough to hold every record.
   */
  lemma ShownPageIsCounted(totalUsers: nat, page: int, limit: int, pages: nat)
    requires limit > 0 && pages * limit >= totalUsers
    requires 0 <= Offset(page, limit) < totalUsers
    ensures 1 <= page <= pages
  {
    PositiveFactor(page - 1, limit);
    assert pages * limit - (page - 1) * limit == (pages - page + 1) * limit;
    PositiveFactor(pages - page + 1, limit);
  }

  /** The window of a page after the last one starts at or past the last record. */
  lemma PastLastPageStartsPastEnd(totalUsers: nat, page: int, limit: int)
    requires limit > 0 && page > CeilDiv(totalUsers, limit)
    ensures Offset(page, limit) >= totalUsers
  {
    var pages := CeilDiv(totalUsers, limit);
    var k := page - 1 - pages;
    PositiveFactor(k, limit);
    assert Offset(page, limit) == pages * limit + k * limit;
  }

  predicate StrictlyIncreasing(s: seq<int>) {
    forall i, j :: 0 <= i < j < |s| ==> s[i] < s[j]
  }

  predicate IsLeast(m: int, ids: set<int>) {
    m in ids && forall x :: x in ids ==> m <= x
  }

  /** Every non-empty finite set of identities has a least element. */
  lemma {:induction false} LeastExists(ids: set<int>)
    requires |ids| > 0
    ensures exists m :: IsLeast(m, ids)
    decreases |ids|
  {
    if forall y :: y !in ids { assert false; }
    var x :| x in ids;
    if |ids - {x}| > 0 {
      LeastExists(ids - {x});
      var m :| IsLeast(m, ids - {x});
      assert forall y :: y in ids ==> y == x || y in ids - {x};
      if x < m {
        assert IsLeast(x, ids);
      } else {
        assert IsLeast(m, ids);
      }
    } else {
      assert ids == {x};
      assert IsLeast(x, ids);
    }
  }

  /** The identities of a table in ascending order: what `ORDER BY id` returns. */
  function SortedIds(ids: set<int>): (r: seq<int>)
    ensures StrictlyIncreasing(r)
    ensures forall x :: x in r <==> x in ids
    ensures |r| == |ids|
    decreases |ids|
  {
    if |ids| == 0 then []
    else
      LeastExists(ids);
      var m :| IsLeast(m, ids);
      [m] + SortedIds(ids - {m})
  }

  /** Ascending order with the same elements leaves one sequence only. */
  lemma {:induction false} IncreasingOrderIsUnique(a: seq<int>, b: seq<int>)
    requires StrictlyIncreasing(a) && StrictlyIncreasing(b)
    requires forall x :: x in a <==> x in b
    ensures a == b
    decreases |a|
  {
    if a == [] {
      assert forall i :: 0 <= i < |b| ==> b[i] in a;
    } else {
      assert a[0] in a;
      assert b != [] by { assert a[0] in b; }
      assert b[0] in b;
      assert a[0] == b[0] by {
        assert a[0] in b && b[0] in a;
        var i :| 0 <= i < |b| && b[i] == a[0];
        var j :| 0 <= j < |a| && a[j] == b[0];
      }
      forall x ensures x in a[1..] <==> x in b[1..] {
        if x in a[1..] {
          var i :| 1 <= i < |a| && a[i] == x;
          assert x in b && x != b[0];
        }
        if x in b[1..] {
          var i :| 1 <= i < |b| && b[i] == x;
          assert x in a && x != a[0];
        }
      }
      IncreasingOrderIsUnique(a[1..], b[1..]);
      assert a == [a[0]] + a[1..] && b == [b[0]] + b[1..];
    }
  }

  /** SortedIds is the only ascending listing of a set of identities. */
  lemma SortedIdsIsTheAscendingOrder(ids: set<int>, listing: seq<int>)
    requires StrictlyIncreasing(listing)
    requires forall x :: x in listing <==> x in ids
    ensures listing == SortedIds(ids)
  {
    IncreasingOrderIsUnique(listing, SortedIds(ids));
  }

  /** `LIMIT limit OFFSET offset` on an ordered listing. */
  function Window(ids: seq<int>, offset: nat, limit: nat): (r: seq<int>)
    ensures |r| <= limit
    ensures |r| == 0 <==> offset >= |ids| || limit == 0
    ensures offset + limit <= |ids| ==> |r| == limit
    ensures offset < |ids| < offset + limit ==> |r| == |ids| - offset
    ensures forall i :: 0 <= i < |r| ==> offset + i < |ids| && r[i] == ids[offset + i]
  {
    if offset >= |ids| then []
    else ids[offset..if offset + limit <= |ids| then offset + limit else |ids|]
  }
}
