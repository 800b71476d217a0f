/** Paging of list queries: `ListContent` and `ListGroups` decide differently whether more
    items follow. */
module Paging {
  const MAX_INT64 := 0x7FFF_FFFF_FFFF_FFFF

  /** Go's addition of two non-negative ints on a 64-bit platform. */
  function AddInt64(x: nat, y: nat): int {
    if x + y <= MAX_INT64 then x + y else x + y - 0x1_0000_0000_0000_0000
  }

  /** Go's division, which rounds toward zero. */
  function Quotient(x: int, d: nat): int
    requires d >= 1
  {
    if x >= 0 then x / d else -(-x / d)
  }

  datatype ListResult<T> = ListResult(
    items: seq<T>, total: int, limit: int, offset: int, hasMore: bool, totalPages: int)

  /** The rows LIMIT and OFFSET leave of an ordered result. */
  function Page<T>(rows: seq<T>, offset: nat, limit: nat): (page: seq<T>)
    ensures offset >= |rows| ==> page == []
    ensures |page| <= limit
  {
    if offset >= |rows| then [] else rows[offset..if offset + limit < |rows| then offset + limit else |rows|]
  }

  /** ListContent's test for further rows. */
  predicate ContentHasMore(total: nat, offset: nat, limit: nat) {
    AddInt64(offset, limit) < total
  }

  /** ListContent's result on the ordered matching rows. */
  function ContentPage<T>(rows: seq<T>, wantedLimit: int, offset: nat): ListResult<T> {
    var limit := if wantedLimit <= 0 then 20 else wantedLimit;
    ListResult(Page(rows, offset, limit), |rows|, limit, offset,
               ContentHasMore(|rows|, offset, limit), Quotient(AddInt64(|rows|, limit - 1), limit))
  }

  /** ListGroups's result; the total is a window count read from the page's own rows. */
  function GroupPage<T>(rows: seq<T>, wantedLimit: int, wantedOffset: int): ListResult<T> {
    var limit := if wantedLimit <= 0 || wantedLimit > 200 then 50 else wantedLimit;
    var offset := if wantedOffset < 0 then 0 else wantedOffset;
    var items := Page(rows, offset, limit);
    var total := if items == [] then 0 else |rows|;
    ListResult(items, total, limit, offset, AddInt64(offset, |items|) < total, 0)
  }

  /** The rows and the figures a group page shows: a limit outside 1 to 200 counts as 50, an offset
      below 0 as 0; behind the last row the total is lost. */
  lemma GroupPageShows<T>(rows: seq<T>, wantedLimit: int, wantedOffset: int, k: nat)
    ensures var r := GroupPage(rows, wantedLimit, wantedOffset);
            && r.limit == (if 1 <= wantedLimit <= 200 then wantedLimit else 50)
            && r.offset == (if wantedOffset >= 0 then wantedOffset else 0)
            && r.total == (if r.offset < |rows| then |rows| else 0)
            && (k < |r.items| <==> k < r.limit && r.offset + k < |rows|)
            && (k < |r.items| ==> r.items[k] == rows[r.offset + k])
  {
  }

  /** The same for a content page, whose limit is not bounded above and whose total is counted. */
  lemma ContentPageShows<T>(rows: seq<T>, wantedLimit: int, offset: nat, k: nat)
    ensures var r := ContentPage(rows, wantedLimit, offset);
            && r.limit == (if wantedLimit >= 1 then wantedLimit else 20)
            && r.total == |rows|
            && (k < |r.items| <==> k < r.limit && offset + k < |rows|)
            && (k < |r.items| ==> r.items[k] == rows[offset + k])
  {
  }

  /** For the same effective limit and offset the two tests agree exactly when offset plus
      limit does not overflow; past that ListContent always announces more. */
  lemma HasMoreAgreesIff<T>(rows: seq<T>, limit: int, offset: nat)
    requires 1 <= limit <= 200 && offset <= MAX_INT64 && |rows| <= MAX_INT64
    ensures ContentPage(rows, limit, offset).hasMore == GroupPage(rows, limit, offset).hasMore <==>
            offset + limit <= MAX_INT64
    ensures offset + limit > MAX_INT64 ==> ContentPage(rows, limit, offset).hasMore
    ensures offset + limit <= MAX_INT64 ==>
            (ContentPage(rows, limit, offset).hasMore <==> offset + limit < |rows|)
  {
    PageLength(rows, offset, limit);
  }

  lemma PageLength<T>(rows: seq<T>, offset: nat, limit: nat)
    ensures |Page(rows, offset, limit)| ==
            if offset >= |rows| then 0 else if offset + limit < |rows| then limit else |rows| - offset
  {
  }

  function Flatten<T>(pages: seq<seq<T>>): seq<T> {
    if pages == [] then [] else pages[0] + Flatten(pages[1..])
  }

  /** Stepping from `offset`, the offset of the page with the last of `n` rows. */
  function LastOffset(n: nat, limit: nat, offset: nat): (last: nat)
    requires limit >= 1
    ensures offset <= last && (last == offset || last < n) && n <= last + limit
    decreases n - offset
  {
    if n <= offset + limit then offset else LastOffset(n, limit, offset + limit)
  }

  /** Following HasMore: the pages fetched from `offset` on. */
  function Walk<T>(rows: seq<T>, limit: nat, offset: nat): seq<seq<T>>
    requires limit >= 1 && offset <= |rows| && LastOffset(|rows|, limit, offset) + limit <= MAX_INT64
    decreases |rows| - offset
  {
    [Page(rows, offset, limit)] +
      if ContentHasMore(|rows|, offset, limit) then Walk(rows, limit, offset + limit) else []
  }

  /** How many pages of `limit` cover `n` rows, at least one. */
  function PagesFor(n: nat, limit: nat): (pages: nat)
    requires limit >= 1
    ensures pages >= 1
  {
    if n <= limit then 1 else 1 + PagesFor(n - limit, limit)
  }

  lemma {:induction false} LaterMultiple(a: int, b: int, d: int)
    requires d >= 1
    ensures a < b ==> a * d + d <= b * d
    decreases b - a
  {
    if a + 1 >= b {
    } else {
      LaterMultiple(a, b - 1, d);
    }
    assert b * d == (b - 1) * d + d;
  }

  lemma QuotientUnique(n: int, d: int, q: int)
    requires d >= 1 && q * d <= n < q * d + d
    ensures n / d == q
  {
    var r := n / d;
    assert r * d <= n < r * d + d;
    LaterMultiple(r, q, d);
    LaterMultiple(q, r, d);
  }

  lemma {:induction false} PagesForIsCeiling(n: nat, limit: nat)
    requires limit >= 1
    ensures (n + limit - 1) / limit == if n == 0 then 0 else PagesFor(n, limit)
  {
    if n == 0 {
      QuotientUnique(limit - 1, limit, 0);
    } else if n <= limit {
      QuotientUnique(n + limit - 1, limit, 1);
    } else {
      PagesForIsCeiling(n - limit, limit);
      var q := PagesFor(n - limit, limit);
      var m := n - limit + limit - 1;
      assert m / limit == q;
      assert q * limit <= m < q * limit + limit;
      assert (q + 1) * limit == q * limit + limit;
      QuotientUnique(m + limit, limit, q + 1);
    }
  }

  lemma WalkStep<T>(rows: seq<T>, limit: nat, offset: nat)
    requires limit >= 1 && offset <= |rows| && LastOffset(|rows|, limit, offset) + limit <= MAX_INT64
    ensures Walk(rows, limit, offset) ==
            if offset + limit < |rows| then [rows[offset..offset + limit]] + Walk(rows, limit, offset + limit)
            else [rows[offset..]]
  {
    assert offset + limit <= MAX_INT64;
    var page := Page(rows, offset, limit);
    if offset + limit < |rows| {
      assert page == rows[offset..offset + limit];
    } else {
      assert page == rows[offset..];
      assert [page] + [] == [page];
    }
  }

  lemma SplitRows<T>(rows: seq<T>, a: nat, b: nat)
    requires a <= b <= |rows|
    ensures rows[a..] == rows[a..b] + rows[b..]
  {
  }

  lemma FlattenCons<T>(first: seq<T>, rest: seq<seq<T>>)
    ensures Flatten([first] + rest) == first + Flatten(rest)
    ensures rest == [] ==> Flatten([first]) == first
  {
    assert ([first] + rest)[1..] == rest;
    assert rest == [] ==> [first] + rest == [first];
  }

  lemma WalkFlattens<T>(rows: seq<T>, limit: nat, offset: nat)
    requires limit >= 1 && offset <= |rows| && LastOffset(|rows|, limit, offset) + limit <= MAX_INT64
    ensures Flatten(Walk(rows, limit, offset)) ==
            if offset + limit < |rows| then rows[offset..offset + limit] + Flatten(Walk(rows, limit, offset + limit))
            else rows[offset..]
  {
    WalkStep(rows, limit, offset);
    if offset + limit < |rows| {
      FlattenCons(rows[offset..offset + limit], Walk(rows, limit, offset + limit));
    } else {
      FlattenCons(rows[offset..], []);
    }
  }

  lemma {:induction false} WalkFrom<T>(rows: seq<T>, limit: nat, offset: nat)
    requires limit >= 1 && offset <= |rows| && LastOffset(|rows|, limit, offset) + limit <= MAX_INT64
    ensures Flatten(Walk(rows, limit, offset)) == rows[offset..]
    decreases |rows| - offset
  {
    WalkFlattens(rows, limit, offset);
    if offset + limit < |rows| {
      WalkFrom(rows, limit, offset + limit);
      SplitRows(rows, offset, offset + limit);
    } else {
    }
  }

  lemma {:induction false} WalkLength<T>(rows: seq<T>, limit: nat, offset: nat)
    requires limit >= 1 && offset <= |rows| && LastOffset(|rows|, limit, offset) + limit <= MAX_INT64
    ensures |Walk(rows, limit, offset)| == PagesFor(|rows| - offset, limit)
    decreases |rows| - offset
  {
    WalkStep(rows, limit, offset);
    if offset + limit < |rows| {
      WalkLength(rows, limit, offset + limit);
    } else {
    }
  }

  /** Whatever limit a client asks for: the page with the last row announces no more exactly when
      its offset plus the limit does not overflow, which half the range of sizes guarantees. */
  lemma WalkStopsIff<T>(rows: seq<T>, limit: nat)
    requires 1 <= limit <= MAX_INT64 && |rows| <= MAX_INT64
    ensures var last := LastOffset(|rows|, limit, 0);
            && (!ContentPage(rows, limit, last).hasMore <==> last + limit <= MAX_INT64)
            && (|rows| <= MAX_INT64 / 2 ==> last + limit <= MAX_INT64)
  {
  }

  /** When it stops, the walk has visited every row exactly once, in order, in as many requests as
      pages cover the rows. */
  lemma WalkVisitsAllOnce<T>(rows: seq<T>, limit: nat)
    requires 1 <= limit <= MAX_INT64 && |rows| <= MAX_INT64
    requires LastOffset(|rows|, limit, 0) + limit <= MAX_INT64
    ensures Flatten(Walk(rows, limit, 0)) == rows
    ensures |Walk(rows, limit, 0)| == PagesFor(|rows|, limit)
    ensures forall offset: nat :: var r := ContentPage(rows, limit, offset);
            r.items == Page(rows, offset, limit) && r.hasMore == ContentHasMore(|rows|, offset, limit)
  {
    WalkFrom(rows, limit, 0);
    WalkLength(rows, limit, 0);
  }

  /** TotalPages is the number of pages, none for an empty result, exactly when adding the limit to
      the total does not overflow; otherwise it is not even positive. */
  lemma TotalPagesRightIff<T>(rows: seq<T>, limit: nat, offset: nat)
    requires 1 <= limit <= MAX_INT64 && |rows| <= MAX_INT64
    ensures var total := ContentPage(rows, limit, offset).totalPages;
            && (total == (if rows == [] then 0 else PagesFor(|rows|, limit)) <==> |rows| + limit - 1 <= MAX_INT64)
            && (|rows| + limit - 1 > MAX_INT64 ==> total <= 0)
  {
    PagesForIsCeiling(|rows|, limit);
    QuotientSign(AddInt64(|rows|, limit - 1), limit);
  }

  lemma QuotientSign(x: int, d: nat)
    requires d >= 1
    ensures x >= 0 ==> Quotient(x, d) == x / d
    ensures x < 0 ==> Quotient(x, d) <= 0
  {
  }
}
