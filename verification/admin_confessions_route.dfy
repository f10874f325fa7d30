/**
 * `GET` and `DELETE /api/admin/confessions` (app/api/admin/confessions/route.ts):
 * a paged listing of every confession that is not soft-deleted, newest first,
 * and the soft delete that also drops the confession's queue entry.
 */
module AdminConfessionsRoute {
  import opened Common
  import opened Js
  import opened Store
  import opened Sorting

  /** A query parameter already parsed by `parseInt`, known to be at least 1. */
  type Positive = n: int | 1 <= n witness 1

  const DEFAULT_PAGE: Positive := 1
  const DEFAULT_LIMIT: Positive := 50

  datatype Item = Item(
    id: string, content: string, category: Option<string>, sentiment: real, createdAt: int,
    upvotes: int, downvotes: int, isDeleted: bool, author: Option<string>, isPending: bool)

  datatype Pagination = Pagination(page: int, limit: int, total: nat, totalPages: nat)

  datatype Listing = Listing(confessions: seq<Item>, pagination: Pagination)

  function ToItem(c: Confession): (r: Item)
    ensures r.id == c.id && r.isDeleted == c.isDeleted && r.createdAt == c.createdAt
    ensures r.isPending <==> c.queue.Some? && !c.queue.value.reviewed
    ensures r.author.None? <==> c.author.None? || c.author.value == ""
    ensures r.content == c.content && r.category == CategoryName(c) && r.sentiment == c.sentiment
    ensures r.upvotes == c.upvotes && r.downvotes == c.downvotes
    ensures r.author == OrAbsent(c.author)
  {
    Item(c.id, c.content, CategoryName(c), c.sentiment, c.createdAt, c.upvotes, c.downvotes, c.isDeleted,
         OrAbsent(c.author), IsPending(c))
  }

  function Items(rows: seq<Confession>): (r: seq<Item>)
    ensures |r| == |rows| && forall i | 0 <= i < |rows| :: r[i] == ToItem(rows[i])
  {
    seq(|rows|, i requires 0 <= i < |rows| => ToItem(rows[i]))
  }

  /** Listing rows keeps their order and their deletion flag. */
  lemma ItemsKeepOrder(rows: seq<Confession>)
    requires SortedDesc(rows, CreatedKey) && forall i | 0 <= i < |rows| :: Live(rows[i])
    ensures var r := Items(rows);
            && (forall i | 0 <= i < |r| :: !r[i].isDeleted)
            && (forall i, j | 0 <= i < j < |r| :: r[i].createdAt >= r[j].createdAt)
  {
    var r := Items(rows);
    forall i, j | 0 <= i < j < |r| ensures r[i].createdAt >= r[j].createdAt {
      assert CreatedKey(rows[i]) >= CreatedKey(rows[j]);
    }
  }

  /** `Math.ceil(total / limit)`: the fewest pages of `limit` rows that hold `total` rows. */
  function CeilDiv(total: nat, limit: Positive): (pages: nat)
    ensures pages * limit >= total
    ensures pages == 0 || (pages - 1) * limit < total
  {
    var q := (total + limit - 1) / limit;
    var rem := (total + limit - 1) % limit;
    assert total + limit - 1 == q * limit + rem;
    assert q * limit >= total;
    assert (q - 1) * limit == q * limit - limit;
    q
  }

  /** Every confession that is not deleted, newest first. */
  function Ordered(s: Store): (r: seq<Confession>)
    ensures SortedDesc(r, CreatedKey)
    ensures |r| == |Filter(s.confessions, Live)|
    ensures forall x :: x in r <==> x in s.confessions && Live(x)
  {
    Newest(s.confessions, Live)
  }

  /** `skip = (page - 1) * limit`. */
  function Skip(page: Positive, limit: Positive): nat {
    var pages: nat := page - 1;
    pages * limit
  }

  /** The rows a page shows: `skip` rows passed over, at most `limit` taken. */
  function Window(rows: seq<Confession>, skip: nat, limit: Positive): (w: seq<Confession>)
    ensures |w| == if skip + limit <= |rows| then limit else if skip <= |rows| then |rows| - skip else 0
    ensures forall i | 0 <= i < |w| :: skip + i < |rows| && w[i] == rows[skip + i]
  {
    Take(Drop(rows, skip), limit)
  }

  /** A window of a newest-first listing is newest first. */
  lemma WindowKeepsOrder(rows: seq<Confession>, skip: nat, limit: Positive)
    requires SortedDesc(rows, CreatedKey)
    ensures SortedDesc(Window(rows, skip, limit), CreatedKey)
  {
    var w := Window(rows, skip, limit);
    forall i, j | 0 <= i < j < |w| ensures CreatedKey(w[i]) >= CreatedKey(w[j]) {
      assert w[i] == rows[skip + i] && w[j] == rows[skip + j];
    }
  }

  function Get(s: Store, page: Option<Positive>, limit: Option<Positive>): (r: Reply<Listing>)
    ensures r.Ok? && r.status == OK
    ensures var p := page.GetOr(DEFAULT_PAGE);
            var l := limit.GetOr(DEFAULT_LIMIT);
            var skip := Skip(p, l);
            var ordered := Ordered(s);
            var items := r.body.confessions;
            var pg := r.body.pagination;
            && pg.page == p && pg.limit == l
            // the page is the rows skip, skip+1, ... of the newest-first listing of live confessions
            && |items| <= l
            && |items| == |Window(ordered, skip, l)|
            && (forall i | 0 <= i < |items| :: skip + i < |ordered| && items[i] == ToItem(ordered[skip + i]))
            && pg.total == |ordered|
            && pg.totalPages == CeilDiv(pg.total, l)
  {
    var p := page.GetOr(DEFAULT_PAGE);
    var l := limit.GetOr(DEFAULT_LIMIT);
    var skip := Skip(p, l);
    var ordered := Ordered(s);
    var items := Items(Window(ordered, skip, l));
    var total := |ordered|;
    Ok(OK, Listing(items, Pagination(p, l, total, CeilDiv(total, l))))
  }

  /** A page holds live confessions only, newest first. */
  lemma PageIsLiveAndNewestFirst(s: Store, page: Option<Positive>, limit: Option<Positive>)
    ensures var items := Get(s, page, limit).body.confessions;
            && (forall i | 0 <= i < |items| :: !items[i].isDeleted)
            && (forall i, j | 0 <= i < j < |items| :: items[i].createdAt >= items[j].createdAt)
  {
    var ordered := Ordered(s);
    var w := Window(ordered, Skip(page.GetOr(DEFAULT_PAGE), limit.GetOr(DEFAULT_LIMIT)), limit.GetOr(DEFAULT_LIMIT));
    assert forall i | 0 <= i < |w| :: Live(w[i]) by {
      forall i | 0 <= i < |w| ensures Live(w[i]) {
        assert w[i] in ordered;
      }
    }
    WindowKeepsOrder(ordered, Skip(page.GetOr(DEFAULT_PAGE), limit.GetOr(DEFAULT_LIMIT)), limit.GetOr(DEFAULT_LIMIT));
    ItemsKeepOrder(w);
  }

  /**
   * Every live confession is listed: position `k` of the newest-first listing
   * is shown at `offset` on the page whose rows start at `k - offset`, and that
   * page is not past the last one. PageArithmetic gives the page and offset of
   * any position: `k / limit + 1` and `k % limit`.
   */
  lemma EveryLiveConfessionIsOnAPage(s: Store, k: nat, page: Positive, offset: nat, limit: Positive)
    requires k < |Ordered(s)|
    requires offset < limit && Skip(page, limit) + offset == k
    ensures var r := Get(s, Some(page), Some(limit));
            && page <= r.body.pagination.totalPages
            && offset < |r.body.confessions|
            && r.body.confessions[offset] == ToItem(Ordered(s)[k])
  {
    var ordered := Ordered(s);
    var pages := CeilDiv(|ordered|, limit);
    assert page <= pages by {
      if pages < page {
        var below: nat := page - 1;
        MulMonotone(pages, below, limit);
      }
    }
    var w := Window(ordered, Skip(page, limit), limit);
    assert |w| > offset && w[offset] == ordered[k];
    assert Get(s, Some(page), Some(limit)).body == Listing(Items(w), Pagination(page, limit, |ordered|, pages));
  }

  /** Position `k` falls on page `k / limit + 1`, at offset `k % limit`, and that page is not past the last. */
  lemma PageArithmetic(k: nat, limit: Positive, total: nat, pages: nat)
    requires k < total
    requires pages * limit >= total
    ensures k / limit + 1 <= pages
    ensures Skip(k / limit + 1, limit) + k % limit == k
  {
    var q := k / limit;
    assert k == q * limit + k % limit;
    if pages <= q {
      MulMonotone(pages, q, limit);
    }
  }

  /** Page `page` covers position `k` exactly when `k / limit + 1 == page`: pages neither overlap nor leave gaps. */
  lemma PageOfPosition(page: Positive, limit: Positive, k: nat)
    ensures Skip(page, limit) <= k < Skip(page, limit) + limit <==> page == k / limit + 1
  {
    var q := k / limit;
    var p: nat := page - 1;
    assert k == q * limit + k % limit;
    if p < q {
      MulMonotone(p + 1, q, limit);
      assert Skip(page, limit) + limit == (p + 1) * limit;
    } else if q < p {
      MulMonotone(q + 1, p, limit);
      assert (q + 1) * limit == q * limit + limit;
    }
  }

  lemma MulMonotone(a: nat, b: nat, c: nat)
    requires a <= b
    ensures a * c <= b * c
  {
  }

  datatype Body = Body(confessionId: Value)

  datatype Deleted = Deleted(id: string)

  const REQUIRED := "confessionId is required"
  const FAILED := "Failed to delete confession"

  /** `DELETE`: soft delete plus `moderationQueue.deleteMany({ where: { confessionId } })`. */
  function Delete(s: Store, body: Option<Body>): (r: (Store, Reply<Deleted>))
    ensures r.1.Err? ==> r.0 == s
    ensures body.None? ==> r.1 == Err(SERVER_ERROR, FAILED)
    ensures body.Some? && !Truthy(body.value.confessionId) ==> r.1 == Err(BAD_REQUEST, REQUIRED)
    ensures r.1.Ok? <==>
              && body.Some? && body.value.confessionId.Str? && body.value.confessionId.s != ""
              && IndexOf(s.confessions, body.value.confessionId.s).Some?
    ensures r.1.Ok? ==>
              var i := IndexOf(s.confessions, body.value.confessionId.s).value;
              && r.1 == Ok(OK, Deleted(body.value.confessionId.s))
              && r.0.users == s.users && r.0.votes == s.votes
              && |r.0.confessions| == |s.confessions|
              && r.0.confessions[i] == s.confessions[i].(isDeleted := true, queue := None)
              && (forall j | 0 <= j < |s.confessions| && j != i :: r.0.confessions[j] == s.confessions[j])
  {
    if body.None? then (s, Err(SERVER_ERROR, FAILED))
    else
      var id := body.value.confessionId;
      if !Truthy(id) then (s, Err(BAD_REQUEST, REQUIRED))
      else if !id.Str? then (s, Err(SERVER_ERROR, FAILED))     // rejected by the update
      else
        match IndexOf(s.confessions, id.s)
        case None => (s, Err(SERVER_ERROR, FAILED))            // update of a missing row throws
        case Some(i) =>
          var c := s.confessions[i];
          (s.(confessions := s.confessions[i := c.(isDeleted := true, queue := None)]), Ok(OK, Deleted(id.s)))
  }

  /** Deleting twice leaves the store as deleting once does, and answers the same. */
  lemma DeleteIdempotent(s: Store, body: Option<Body>)
    requires Delete(s, body).1.Ok?
    ensures Delete(Delete(s, body).0, body) == Delete(s, body)
  {
    var s1 := Delete(s, body).0;
    var i := IndexOf(s.confessions, body.value.confessionId.s).value;
    IndexOfSameIds(s.confessions, s1.confessions, body.value.confessionId.s);
    assert s1.confessions[i := s1.confessions[i].(isDeleted := true, queue := None)] == s1.confessions;
  }

  /** Deleting keeps the store valid, and the deleted confession is never public again. */
  lemma DeleteKeepsValid(s: Store, body: Option<Body>)
    requires Valid(s)
    ensures Valid(Delete(s, body).0)
    ensures Delete(s, body).1.Ok? ==>
              !Visible(Delete(s, body).0.confessions[IndexOf(s.confessions, body.value.confessionId.s).value])
  {
    if Delete(s, body).1.Ok? {
      var i := IndexOf(s.confessions, body.value.confessionId.s).value;
      ReplaceKeepsValid(s, i, s.confessions[i].(isDeleted := true, queue := None));
    }
  }
}
