/** `GET /jobs`: the defaulting of `page` and `limit`, the newest-first sort,
    the skip/limit window, and the `total` and `pages` counts. */
module Listing {
  import opened Wrappers
  import opened JobSchema

  const DefaultPage: int := 1
  const DefaultLimit: int := 100

  /** The body of a successful `GET /jobs`. */
  datatype PageOfJobs = PageOfJobs(jobs: seq<Job>, total: nat, page: int, pages: int)

  function Abs(x: int): nat {
    if x < 0 then -x else x
  }

  function Min(a: nat, b: nat): nat {
    if a <= b then a else b
  }

  /** JavaScript's `parseInt(q) || d`. A query that does not parse (NaN, here
      None) and a zero are falsy and give `d`; every other integer is kept,
      a negative one included. */
  function OrDefault(parsed: Option<int>, d: int): (r: int)
    ensures parsed == None || parsed == Some(0) ==> r == d
    ensures parsed.Some? && parsed.value != 0 ==> r == parsed.value
  {
    if parsed.Some? && parsed.value != 0 then parsed.value else d
  }

  /** The page number the handler uses. */
  function RequestedPage(pageQuery: Option<int>): (page: int)
    ensures page != 0
    ensures pageQuery.Some? && pageQuery.value != 0 ==> page == pageQuery.value
    ensures !(pageQuery.Some? && pageQuery.value != 0) ==> page == DefaultPage
  {
    OrDefault(pageQuery, DefaultPage)
  }

  /** The page size the handler uses. */
  function RequestedLimit(limitQuery: Option<int>): (limit: int)
    ensures limit != 0
    ensures limitQuery.Some? && limitQuery.value != 0 ==> limit == limitQuery.value
    ensures !(limitQuery.Some? && limitQuery.value != 0) ==> limit == DefaultLimit
  {
    OrDefault(limitQuery, DefaultLimit)
  }

  /** The offset `(page - 1) * limit` the handler passes to `skip`. */
  function Offset(pageQuery: Option<int>, limitQuery: Option<int>): int {
    (RequestedPage(pageQuery) - 1) * RequestedLimit(limitQuery)
  }

  /** Records in non-increasing `createdAt` order, as `sort({ createdAt: -1 })` returns them. */
  predicate NewestFirst(s: seq<Job>) {
    forall i, k :: 0 <= i < k < |s| ==> s[i].createdAt >= s[k].createdAt
  }

  /** Puts `j` into a newest-first sequence, ahead of the records no newer than it. */
  function InsertByAge(j: Job, s: seq<Job>): (r: seq<Job>)
    requires NewestFirst(s)
    ensures NewestFirst(r)
    ensures multiset(r) == multiset(s) + multiset{j}
    ensures |r| == |s| + 1
  {
    if s == [] || s[0].createdAt <= j.createdAt then
      ConsNewestFirst(j, s);
      [j] + s
    else
      var rest := InsertByAge(j, s[1..]);
      assert s == [s[0]] + s[1..];
      forall x | x in rest ensures s[0].createdAt >= x.createdAt {
        assert x in multiset(rest);
        assert x == j || x in multiset(s[1..]);
      }
      ConsNewestFirst(s[0], rest);
      [s[0]] + rest
  }

  /** A record no older than every record of a newest-first sequence may
      go in front of it. */
  lemma ConsNewestFirst(x: Job, s: seq<Job>)
    requires NewestFirst(s)
    requires forall y :: y in s ==> x.createdAt >= y.createdAt
    ensures NewestFirst([x] + s)
  {
    var t := [x] + s;
    forall i, k | 0 <= i < k < |t| ensures t[i].createdAt >= t[k].createdAt {
      assert t[k] == s[k - 1] && t[k] in s;
      if i > 0 {
        assert t[i] == s[i - 1];
      }
    }
  }

  /** The store ordered newest first; records of equal age keep their
      insertion order. */
  function SortNewestFirst(s: seq<Job>): (r: seq<Job>)
    ensures NewestFirst(r)
    ensures multiset(r) == multiset(s)
    ensures |r| == |s|
  {
    if s == [] then []
    else
      assert s == [s[0]] + s[1..];
      InsertByAge(s[0], SortNewestFirst(s[1..]))
  }

  /** `.skip(skip).limit(count)` on an ordered result: the records from
      offset `skip` on, at most `count` of them; none past the end. */
  function Window(s: seq<Job>, skip: nat, count: nat): (r: seq<Job>)
    ensures |r| == if skip >= |s| then 0 else Min(count, |s| - skip)
    ensures forall i :: 0 <= i < |r| ==> r[i] == s[skip + i]
  {
    if skip >= |s| then [] else s[skip .. skip + Min(count, |s| - skip)]
  }

  /** JavaScript's `Math.ceil(total / limit)` for a non-zero integer `limit`:
      the least integer `q` with `total <= q * limit` when `limit` is
      positive, and with `q * limit <= total` when it is negative. */
  function CeilDiv(total: nat, limit: int): (q: int)
    requires limit != 0
    ensures limit > 0 ==> q >= 0 && (q - 1) * limit < total <= q * limit
    ensures limit < 0 ==> q <= 0 && q * limit <= total < (q - 1) * limit
  {
    if limit > 0 then
      CeilPositive(total, limit);
      (total + limit - 1) / limit
    else
      CeilNegative(total, limit);
      -(total / -limit)
  }

  lemma CeilPositive(t: nat, d: int)
    requires d > 0
    ensures var q := (t + d - 1) / d; q >= 0 && (q - 1) * d < t <= q * d
  {
    var n := t + d - 1;
    var q := n / d;
    var r := n % d;
    assert n == d * q + r && 0 <= r < d;
    var m := q * d;
    assert m == d * q;
    assert (q - 1) * d == m - d;
  }

  lemma CeilNegative(t: nat, limit: int)
    requires limit < 0
    ensures var q := -(t / -limit); q <= 0 && q * limit <= t < (q - 1) * limit
  {
    var d := -limit;
    var q := t / d;
    var r := t % d;
    assert t == d * q + r && 0 <= r < d;
    assert -q * limit == d * q;
    assert (-q - 1) * limit == d * q + d;
  }

  /** `GET /jobs?page=&limit=` over the store `store`. `reachable` is false
      when the database cannot be reached; then, and when MongoDB refuses a
      negative skip, the handler answers with the generic error. */
  function ListJobs(store: seq<Job>, pageQuery: Option<int>, limitQuery: Option<int>, reachable: bool)
    : (r: Result<PageOfJobs, ServerError>)
    ensures r.Ok? <==> reachable && Offset(pageQuery, limitQuery) >= 0
    ensures r.Ok? ==> r.value.total == |store|
    ensures r.Ok? ==> r.value.page == RequestedPage(pageQuery)
    ensures r.Ok? ==> |r.value.jobs| <= Abs(RequestedLimit(limitQuery))
    ensures r.Ok? ==> NewestFirst(r.value.jobs)
    ensures r.Ok? ==> multiset(r.value.jobs) <= multiset(store)
    ensures r.Ok? ==> r.value.pages == CeilDiv(|store|, RequestedLimit(limitQuery))
    ensures r.Ok? ==>
              (r.value.jobs == [] <==> Offset(pageQuery, limitQuery) >= |store|)
  {
    var page := RequestedPage(pageQuery);
    var limit := RequestedLimit(limitQuery);
    var skip := Offset(pageQuery, limitQuery);
    if !reachable || skip < 0 then
      Err(InternalServerError)
    else
      var sorted := SortNewestFirst(store);
      var jobs := Window(sorted, skip, Abs(limit));
      WindowOfNewestFirst(sorted, skip, Abs(limit));
      WindowSubMultiset(sorted, skip, Abs(limit));
      Ok(PageOfJobs(jobs, |store|, page, CeilDiv(|store|, limit)))
  }

  /** A window of a newest-first sequence is newest first. */
  lemma WindowOfNewestFirst(s: seq<Job>, skip: nat, count: nat)
    requires NewestFirst(s)
    ensures NewestFirst(Window(s, skip, count))
  {
    var w := Window(s, skip, count);
    forall i, k | 0 <= i < k < |w| ensures w[i].createdAt >= w[k].createdAt {
      assert w[i] == s[skip + i] && w[k] == s[skip + k];
    }
  }

  /** A window holds no record the sequence does not. */
  lemma WindowSubMultiset(s: seq<Job>, skip: nat, count: nat)
    ensures multiset(Window(s, skip, count)) <= multiset(s)
  {
    if skip < |s| {
      var e := skip + Min(count, |s| - skip);
      assert s == s[..skip] + s[skip..e] + s[e..];
      assert multiset(s) == multiset(s[..skip]) + multiset(s[skip..e]) + multiset(s[e..]);
    }
  }

  /** The returned jobs are exactly the window of the newest-first store
      that starts at `(page - 1) * limit` and holds at most `|limit|` records. */
  lemma ListJobsIsWindow(store: seq<Job>, pageQuery: Option<int>, limitQuery: Option<int>)
    requires Offset(pageQuery, limitQuery) >= 0
    ensures var r := ListJobs(store, pageQuery, limitQuery, true);
            var skip := Offset(pageQuery, limitQuery);
            r.Ok? &&
            |r.value.jobs| == (if skip >= |store| then 0 else Min(Abs(RequestedLimit(limitQuery)), |store| - skip)) &&
            forall i :: 0 <= i < |r.value.jobs| ==> r.value.jobs[i] == SortNewestFirst(store)[skip + i]
  {
    var skip := Offset(pageQuery, limitQuery);
    var w := Window(SortNewestFirst(store), skip, Abs(RequestedLimit(limitQuery)));
    assert ListJobs(store, pageQuery, limitQuery, true).value.jobs == w;
  }

  /** With a positive page and page size (the values every caller of the
      handler means to send), the request succeeds whenever the store is
      reachable, returns at most `limit` records, and `pages` is the ceiling
      of `total / limit`. */
  lemma PositivePagingSucceeds(store: seq<Job>, page: int, limit: int)
    requires page >= 1 && limit >= 1
    ensures var r := ListJobs(store, Some(page), Some(limit), true);
            r.Ok? && r.value.page == page && r.value.total == |store| && |r.value.jobs| <= limit &&
            (r.value.pages - 1) * limit < |store| <= r.value.pages * limit
  {
    assert RequestedPage(Some(page)) == page && RequestedLimit(Some(limit)) == limit;
    MulMonotone(0, page - 1, limit);
    var r := ListJobs(store, Some(page), Some(limit), true);
    assert r.Ok?;
    var q := CeilDiv(|store|, limit);
    assert (q - 1) * limit < |store| <= q * limit;
  }

  /** For a positive page size, a positive page is non-empty exactly when it
      is one of the first `pages` pages; a page past the last one is empty
      and still carries the right `total` and `pages`. */
  lemma {:induction false} PageNonEmptyIff(store: seq<Job>, page: int, limit: int)
    requires page >= 1 && limit >= 1
    ensures var r := ListJobs(store, Some(page), Some(limit), true);
            r.Ok? && (r.value.jobs != [] <==> page <= r.value.pages)
  {
    PositivePagingSucceeds(store, page, limit);
    var r := ListJobs(store, Some(page), Some(limit), true);
    assert RequestedPage(Some(page)) == page && RequestedLimit(Some(limit)) == limit;
    PastLastPage(|store|, page, limit, r.value.pages);
  }

  /** Page `page` starts at or past the end of `total` records exactly when
      it comes after page `q`, the ceiling of `total / limit`. */
  lemma PastLastPage(total: nat, page: int, limit: int, q: int)
    requires page >= 1 && limit >= 1
    requires (q - 1) * limit < total <= q * limit
    ensures (page - 1) * limit >= total <==> page > q
  {
    if page <= q {
      MulMonotone(page - 1, q - 1, limit);
    } else {
      MulMonotone(q, page - 1, limit);
    }
  }

  lemma MulMonotone(a: int, b: int, c: nat)
    requires a <= b
    ensures a * c <= b * c
  {
  }
}
