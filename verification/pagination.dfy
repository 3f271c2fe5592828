/** `PaginatedResponse.create` (app/models.py): the page arithmetic every
    list route reports next to its items. Python's `//` rounds towards
    minus infinity; every division here is by a positive `limit`, where it
    agrees with Dafny's `/`. */
module Pagination {

  datatype PaginationInfo = PaginationInfo(
    skip: int,
    limit: int,
    total: int,
    page: int,
    totalPages: int,
    hasNext: bool,
    hasPrev: bool)

  datatype Paginated<T> = Paginated(items: seq<T>, pagination: PaginationInfo)

  /** `PaginatedResponse.create(items, skip, limit, total)`. With a positive
      limit, `page` is the page that holds record `skip`, and `totalPages`
      is the number of pages needed for `total` records (at least one). */
  function Create<T>(items: seq<T>, skip: int, limit: int, total: int): (r: Paginated<T>)
    ensures r.items == items
    ensures r.pagination.skip == skip && r.pagination.limit == limit && r.pagination.total == total
    ensures limit <= 0 ==> r.pagination.page == 1
    ensures limit > 0 ==> (r.pagination.page - 1) * limit <= skip < r.pagination.page * limit
    ensures r.pagination.totalPages >= 1
    ensures limit <= 0 || total <= 0 ==> r.pagination.totalPages == 1
    ensures limit > 0 && total > 0 ==>
      (r.pagination.totalPages - 1) * limit < total <= r.pagination.totalPages * limit
    ensures r.pagination.hasNext <==> skip + limit < total
    ensures r.pagination.hasPrev <==> skip > 0
  {
    var page := if limit > 0 then skip / limit + 1 else 1;
    var totalPages := if limit > 0 && total > 0 then (total - 1) / limit + 1 else 1;
    Paginated(items, PaginationInfo(skip, limit, total, page, totalPages, skip + limit < total, skip > 0))
  }

  /** The page count is the ceiling of `total / limit`: no smaller
      positive number of pages holds every record. */
  lemma TotalPagesIsLeast<T>(items: seq<T>, limit: int, total: int, n: int)
    requires limit > 0 && total > 0 && n >= 1 && total <= n * limit
    ensures Create(items, 0, limit, total).pagination.totalPages <= n
  {
    var tp := Create(items, 0, limit, total).pagination.totalPages;
    if tp > n {
      MulMonotone(n, tp - 1, limit);
      assert false;
    }
  }

  lemma MulMonotone(a: int, b: int, c: int)
    requires a <= b && c > 0
    ensures a * c <= b * c
  {
  }

  /** Walking the pages with `skip = (p-1)*limit`: the reported page is
      `p`, there is a next page exactly before the last one, and a previous
      page exactly after the first. */
  lemma {:induction false} PageWalk<T>(items: seq<T>, limit: int, total: int, p: int)
    requires limit > 0 && total > 0
    requires 1 <= p <= Create(items, 0, limit, total).pagination.totalPages
    ensures var info := Create(items, (p - 1) * limit, limit, total).pagination;
      && info.page == p
      && (info.hasNext <==> p < info.totalPages)
      && (info.hasPrev <==> p > 1)
  {
    var skip := (p - 1) * limit;
    var info := Create(items, skip, limit, total).pagination;
    var tp := info.totalPages;
    assert (tp - 1) * limit < total <= tp * limit;
    assert skip / limit == p - 1 by {
      DivOfMultiple(p - 1, limit);
    }
    if p < tp {
      MulMonotone(p, tp - 1, limit);
      assert skip + limit == p * limit;
    } else {
      assert skip + limit == tp * limit;
    }
    if p > 1 {
      MulMonotone(1, p - 1, limit);
    }
  }

  lemma DivOfMultiple(q: int, b: int)
    requires b > 0
    ensures (q * b) / b == q
  {
    var x := (q * b) / b;
    assert x * b <= q * b < (x + 1) * b;
    if x < q {
      MulMonotone(x + 1, q, b);
    } else if x > q {
      MulMonotone(q + 1, x, b);
    }
  }
}
