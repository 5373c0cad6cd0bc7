/** Ordering and offset pagination of query results.

    `ORDER BY` is modelled by a stable insertion sort on an integer key (ties
    stay in table order; SQL leaves their order to the database). `paginate`
    belongs to Flask-SQLAlchemy and is modelled by the semantics of its 2.x
    release called with `error_out=False`: a page below 1 is read as page 1,
    the items are the page's slice of the ordered rows (empty past the end),
    `total` counts all rows, `has_prev` is `page > 1` and `has_next` is
    `page < pages`, where `pages` is the total divided by the page size,
    rounded up. */
module Pagination {
  import opened Wrappers

  ghost predicate SortedBy<T>(s: seq<T>, key: T -> int)
  {
    forall i, j :: 0 <= i < j < |s| ==> key(s[i]) <= key(s[j])
  }

  /** Insert `x` before the first element whose key is not smaller. */
  function Insert<T>(x: T, s: seq<T>, key: T -> int): (r: seq<T>)
    requires SortedBy(s, key)
    ensures SortedBy(r, key)
    ensures multiset(r) == multiset(s) + multiset{x}
    ensures forall y :: y in r ==> y == x || y in s
  {
    if |s| == 0 || key(x) <= key(s[0]) then
      ConsSorted(x, s, key);
      [x] + s
    else
      var rest := Insert(x, s[1..], key);
      assert s == [s[0]] + s[1..];
      HeadBelow(s, x, rest, key);
      ConsSorted(s[0], rest, key);
      [s[0]] + rest
  }

  /** Putting an element no larger than any other in front keeps the order. */
  lemma ConsSorted<T>(h: T, t: seq<T>, key: T -> int)
    requires SortedBy(t, key)
    requires forall j :: 0 <= j < |t| ==> key(h) <= key(t[j])
    ensures SortedBy([h] + t, key)
  {
    var r := [h] + t;
    forall i, j | 0 <= i < j < |r| ensures key(r[i]) <= key(r[j]) {
      assert r[j] == t[j - 1];
      if i > 0 {
        assert r[i] == t[i - 1];
      }
    }
  }

  /** The head of a sorted sequence is no larger than anything that is `x` or
      drawn from the rest of it, when it is below `x`. */
  lemma HeadBelow<T>(s: seq<T>, x: T, rest: seq<T>, key: T -> int)
    requires SortedBy(s, key) && |s| > 0 && key(s[0]) < key(x)
    requires forall y :: y in rest ==> y == x || y in s[1..]
    ensures forall j :: 0 <= j < |rest| ==> key(s[0]) <= key(rest[j])
  {
    forall j | 0 <= j < |rest| ensures key(s[0]) <= key(rest[j]) {
      assert rest[j] in rest;
      if rest[j] != x {
        var k :| 0 <= k < |s[1..]| && s[1..][k] == rest[j];
        assert s[k + 1] == rest[j];
      }
    }
  }

  /** The rows ordered by ascending key. */
  function SortBy<T>(s: seq<T>, key: T -> int): (r: seq<T>)
    ensures SortedBy(r, key)
    ensures multiset(r) == multiset(s)
  {
    if |s| == 0 then []
    else
      assert s == [s[0]] + s[1..];
      Insert(s[0], SortBy(s[1..], key), key)
  }

  datatype Page<T> = Page(items: seq<T>, page: int, perPage: nat, total: nat, hasPrev: bool, hasNext: bool)

  /** `pages`: the number of pages, the total divided by the page size rounded up. */
  function PageCount(total: nat, perPage: nat): nat
    requires perPage > 0
  {
    (total + perPage - 1) / perPage
  }

  function Min(a: int, b: int): int { if a <= b then a else b }

  /** `query.paginate(page, per_page, error_out=False)` over already ordered rows. */
  function Paginate<T>(s: seq<T>, page: int, perPage: nat): (r: Page<T>)
    requires perPage > 0
    ensures r.page >= 1 && r.perPage == perPage && r.total == |s| && |r.items| <= perPage
    ensures r.hasPrev <==> page > 1
  {
    var p := if page < 1 then 1 else page;
    var offset := (p - 1) * perPage;
    var items := if offset >= |s| then [] else s[offset .. Min(offset + perPage, |s|)];
    Page(items, p, perPage, |s|, p > 1, p < PageCount(|s|, perPage))
  }

  /** The `prev` link, which names the raw requested page minus one. */
  function PrevLink<T>(page: int, pg: Page<T>): Option<int>
  {
    if pg.hasPrev then Some(page - 1) else None
  }

  /** The `next` link, which names the raw requested page plus one. */
  function NextLink<T>(page: int, pg: Page<T>): Option<int>
  {
    if pg.hasNext then Some(page + 1) else None
  }

  // --- properties of the pagination ------------------------------------------

  lemma MulMono(a: int, b: int, c: nat)
    requires a <= b
    ensures a * c <= b * c
  {
  }

  /** A page holds at most `perPage` rows, the rows at its offset in order, and
      the total is the number of all rows. */
  lemma PaginateSlice<T>(s: seq<T>, page: int, perPage: nat)
    requires perPage > 0
    ensures var pg := Paginate(s, page, perPage);
      && pg.page >= 1 && pg.total == |s| && |pg.items| <= perPage
      && (pg.page == page || page < 1)
      && forall k :: 0 <= k < |pg.items| ==>
           0 <= (pg.page - 1) * perPage + k < |s| && pg.items[k] == s[(pg.page - 1) * perPage + k]
  {
    var p := if page < 1 then 1 else page;
    MulMono(0, p - 1, perPage);
  }

  /** A page holds only rows of the query. */
  lemma PageFromRows<T>(s: seq<T>, page: int, perPage: nat)
    requires perPage > 0
    ensures forall x :: x in Paginate(s, page, perPage).items ==> x in s
  {
    PaginateSlice(s, page, perPage);
  }

  /** A page of ordered rows is ordered. */
  lemma PageSorted<T>(s: seq<T>, key: T -> int, page: int, perPage: nat)
    requires perPage > 0 && SortedBy(s, key)
    ensures SortedBy(Paginate(s, page, perPage).items, key)
  {
    PaginateSlice(s, page, perPage);
    var pg := Paginate(s, page, perPage);
    var off := (pg.page - 1) * perPage;
    forall i, j | 0 <= i < j < |pg.items| ensures key(pg.items[i]) <= key(pg.items[j]) {
      assert pg.items[i] == s[off + i] && pg.items[j] == s[off + j];
    }
  }

  /** Page `p` is below the page count exactly when rows remain after it. */
  lemma {:induction false} BelowPageCount(p: int, total: nat, perPage: nat)
    requires perPage > 0 && p >= 1
    ensures p < PageCount(total, perPage) <==> p * perPage < total
  {
    var q := PageCount(total, perPage);
    var r := (total + perPage - 1) % perPage;
    assert total + perPage - 1 == q * perPage + r && 0 <= r < perPage;
    assert (p + 1) * perPage == p * perPage + perPage;
    if p < q {
      MulMono(p + 1, q, perPage);
    }
    if p * perPage < total && q <= p {
      MulMono(q + 1, p + 1, perPage);
      assert false;
    }
  }

  /** `has_next` holds exactly when rows remain after the page `paginate`
      reads, which is page 1 for a requested page below 1. */
  lemma {:induction false} HasNextIff<T>(s: seq<T>, page: int, perPage: nat)
    requires perPage > 0
    ensures Paginate(s, page, perPage).hasNext <==> (if page < 1 then 1 else page) * perPage < |s|
  {
    BelowPageCount(if page < 1 then 1 else page, |s|, perPage);
  }

  /** A page past the last has no rows and no `next`, and (when there are rows)
      has a `prev`. */
  lemma {:induction false} PastTheEnd<T>(s: seq<T>, page: int, perPage: nat)
    requires perPage > 0 && page >= 1
    requires (page - 1) * perPage >= |s|
    ensures var pg := Paginate(s, page, perPage);
      pg.items == [] && !pg.hasNext && (|s| > 0 ==> pg.hasPrev)
  {
    HasNextIff(s, page, perPage);
    assert page * perPage == (page - 1) * perPage + perPage;
  }

  /** Row `q * perPage + r` of the ordered rows is row `r` of page `q + 1`. */
  lemma RowOnPage<T>(s: seq<T>, q: nat, r: nat, perPage: nat)
    requires 0 <= r < perPage && q * perPage + r < |s|
    ensures var pg := Paginate(s, q + 1, perPage);
      r < |pg.items| && pg.items[r] == s[q * perPage + r]
  {
    assert (q + 1 - 1) * perPage == q * perPage;
  }

  /** Every row appears on page `i / perPage + 1`, at position `i % perPage`. */
  lemma {:induction false} EveryRowOnItsPage<T>(s: seq<T>, i: nat, perPage: nat)
    requires perPage > 0 && i < |s|
    ensures var pg := Paginate(s, i / perPage + 1, perPage);
      i % perPage < |pg.items| && pg.items[i % perPage] == s[i]
  {
    var q, r := i / perPage, i % perPage;
    assert i == q * perPage + r;
    RowOnPage(s, q, r, perPage);
  }

  /** Every row is on some page. */
  lemma {:induction false} EveryRowListed<T>(s: seq<T>, x: T, perPage: nat)
    requires perPage > 0 && x in s
    ensures exists page :: page >= 1 && x in Paginate(s, page, perPage).items
  {
    var i :| 0 <= i < |s| && s[i] == x;
    EveryRowOnItsPage(s, i, perPage);
    var q: nat := i / perPage;
    var items := Paginate(s, q + 1, perPage).items;
    assert items[i % perPage] == x;
    assert q + 1 >= 1 && x in items;
  }

  /** When `has_next` holds, the next page is not empty. */
  lemma {:induction false} NextPageNotEmpty<T>(s: seq<T>, page: int, perPage: nat)
    requires perPage > 0 && page >= 1
    requires Paginate(s, page, perPage).hasNext
    ensures Paginate(s, page + 1, perPage).items != []
  {
    HasNextIff(s, page, perPage);
    assert page * perPage == ((page + 1) - 1) * perPage;
  }
}
