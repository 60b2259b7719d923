/**
 * Offset-based pagination: page `p` (counting from 1) of size `limit` starts
 * after `(p - 1) * limit` rows and holds at most `limit` of them; the page
 * count is the ceiling of total / limit.
 */
module Paging {

  /** Rows skipped before page `page`. */
  function Offset(page: nat, limit: nat): (offset: nat)
    requires page >= 1
    ensures page == 1 ==> offset == 0
  {
    (page - 1) * limit
  }

  /** Each page starts exactly `limit` rows after the one before it. */
  lemma NextPageOffset(page: nat, limit: nat)
    requires page >= 1
    ensures Offset(page + 1, limit) == Offset(page, limit) + limit
  {
    assert page * limit == (page - 1) * limit + limit;
  }

  /** The number of pages of `limit` rows needed for `total` rows: the ceiling of total / limit. */
  function PageCount(total: nat, limit: nat): (pages: nat)
    requires limit >= 1
    ensures total <= pages * limit
    ensures pages > 0 ==> (pages - 1) * limit < total
  {
    var pages := (total + limit - 1) / limit;
    assert pages * limit <= total + limit - 1 < pages * limit + limit;
    pages
  }

  /** The rows from position `offset` on, at most `limit` of them (SQL's `LIMIT … OFFSET …`). */
  function Window<T>(rows: seq<T>, offset: nat, limit: nat): (w: seq<T>)
    ensures |w| == (if offset >= |rows| then 0 else if offset + limit <= |rows| then limit else |rows| - offset)
    ensures forall i :: 0 <= i < |w| ==> w[i] == rows[offset + i]
  {
    if offset >= |rows| then []
    else if offset + limit <= |rows| then rows[offset..offset + limit]
    else rows[offset..]
  }

  /** A window is a contiguous slice of the rows. */
  lemma WindowIsSlice<T>(rows: seq<T>, offset: nat, limit: nat) returns (lo: nat, hi: nat)
    ensures lo <= hi <= |rows| && Window(rows, offset, limit) == rows[lo..hi]
  {
    if offset >= |rows| {
      lo, hi := 0, 0;
    } else if offset + limit <= |rows| {
      lo, hi := offset, offset + limit;
    } else {
      lo, hi := offset, |rows|;
    }
  }

  lemma MulMonotone(a: nat, b: nat, c: nat)
    requires a <= b
    ensures a * c <= b * c
  {
  }

  /** Every page before the last is full, and every page after the last is empty. */
  lemma PageSizes<T>(rows: seq<T>, limit: nat, page: nat)
    requires limit >= 1 && page >= 1
    ensures page < PageCount(|rows|, limit) ==> |Window(rows, Offset(page, limit), limit)| == limit
    ensures page > PageCount(|rows|, limit) ==> Window(rows, Offset(page, limit), limit) == []
  {
    var pages := PageCount(|rows|, limit);
    if page < pages {
      MulMonotone(page, pages - 1, limit);
      assert Offset(page, limit) + limit == page * limit;
    }
    if page > pages {
      MulMonotone(pages, page - 1, limit);
    }
  }

  /** Position `k` of the rows is shown on page `p`, one of the counted pages. */
  lemma PageOf<T>(rows: seq<T>, limit: nat, k: nat) returns (p: nat)
    requires limit >= 1 && k < |rows|
    ensures 1 <= p <= PageCount(|rows|, limit)
    ensures Offset(p, limit) <= k < Offset(p, limit) + limit
    ensures Window(rows, Offset(p, limit), limit)[k - Offset(p, limit)] == rows[k]
  {
    p := k / limit + 1;
    assert Offset(p, limit) <= k < Offset(p, limit) + limit;
    var pages := PageCount(|rows|, limit);
    if p > pages {
      MulMonotone(pages, p - 1, limit);
    }
  }

  /** Pages never overlap: a position lies in the window of one page only. */
  lemma {:induction false} OnePagePerPosition(limit: nat, k: nat, p1: nat, p2: nat)
    requires limit >= 1 && p1 >= 1 && p2 >= 1
    requires Offset(p1, limit) <= k < Offset(p1, limit) + limit
    requires Offset(p2, limit) <= k < Offset(p2, limit) + limit
    ensures p1 == p2
  {
    if p1 < p2 {
      MulMonotone(p1, p2 - 1, limit);
    } else if p2 < p1 {
      MulMonotone(p2, p1 - 1, limit);
    }
  }

  /** With distinct rows, a row shown on two pages was shown twice on the same page. */
  lemma {:induction false} WindowsAreDisjoint<T>(rows: seq<T>, limit: nat, p1: nat, p2: nat, x: T)
    requires limit >= 1 && p1 >= 1 && p2 >= 1
    requires forall i, j :: 0 <= i < j < |rows| ==> rows[i] != rows[j]
    requires x in Window(rows, Offset(p1, limit), limit) && x in Window(rows, Offset(p2, limit), limit)
    ensures p1 == p2
  {
    var w1, w2 := Window(rows, Offset(p1, limit), limit), Window(rows, Offset(p2, limit), limit);
    var i :| 0 <= i < |w1| && w1[i] == x;
    var j :| 0 <= j < |w2| && w2[j] == x;
    var k1, k2 := Offset(p1, limit) + i, Offset(p2, limit) + j;
    assert rows[k1] == x == rows[k2];
    assert k1 == k2;
    OnePagePerPosition(limit, k1, p1, p2);
  }
}
