/**
 * `GET /api/confessions`, the public feed: the newest `limit` confessions that
 * are not deleted and match the category, with those still waiting for review
 * dropped afterwards, so the feed can be shorter than `limit` even when older
 * public confessions exist.
 */
module ConfessionsRoute {
  import opened Common
  import opened Js
  import opened Store
  import opened Sorting

  const DEFAULT_LIMIT := 50
  const ALL := "all"
  const UNKNOWN_AUTHOR := "unknown"

  datatype Item = Item(id: string, content: string, category: Option<string>, sentiment: real, createdAt: int, anonId: string)

  function ToItem(c: Confession): (r: Item)
    ensures r.id == c.id && r.content == c.content && r.createdAt == c.createdAt
    ensures c.category.None? ==> r.category.None?
    ensures c.author.None? ==> r.anonId == UNKNOWN_AUTHOR
    // `Category?.name || null`, the stored sentiment, `User?.alias || "unknown"`
    ensures r.category == CategoryName(c) && r.sentiment == c.sentiment
    ensures r.anonId == OrElse(c.author, UNKNOWN_AUTHOR)
  {
    Item(c.id, c.content, CategoryName(c), c.sentiment, c.createdAt, OrElse(c.author, UNKNOWN_AUTHOR))
  }

  /** The `Category: { name }` condition, applied when the parameter is set and is not "all". */
  predicate InCategory(category: Option<string>, c: Confession) {
    var f := OrAbsent(category);
    f.None? || f.value == ALL || c.category == Some(f.value)
  }

  /** The query's where-clause. */
  function Wanted(category: Option<string>): Confession -> bool {
    c => Live(c) && InCategory(category, c)
  }

  /**
   * What the query fetches: the `limit` newest live confessions of the category
   * (all of them when fewer match), newest first.
   */
  function Fetched(s: Store, limit: nat, category: Option<string>): (r: seq<Confession>)
    ensures var n := |Filter(s.confessions, Wanted(category))|;
            |r| == if limit <= n then limit else n
    ensures SortedDesc(r, CreatedKey)
    ensures multiset(r) <= multiset(Filter(s.confessions, Wanted(category)))
    ensures forall x | x in r :: x in s.confessions && Live(x) && InCategory(category, x)
    // no matching confession left out is newer than one fetched
    ensures forall x, y | x in r && y in s.confessions && Live(y) && InCategory(category, y) && y !in r ::
              y.createdAt <= x.createdAt
    ensures |Filter(s.confessions, Wanted(category))| <= limit ==>
              forall x | x in s.confessions && Live(x) && InCategory(category, x) :: x in r
  {
    var all := Newest(s.confessions, Wanted(category));
    TakePreservesSorted(all, limit, CreatedKey);
    TakeIsSubMultiset(all, limit);
    TakeMembers(all, limit);
    FetchedIsNewest(s, limit, category);
    Take(all, limit)
  }

  /** No live confession of the category left out of the fetch is newer than one fetched. */
  lemma FetchedIsNewest(s: Store, limit: nat, category: Option<string>)
    ensures var r := Take(Newest(s.confessions, Wanted(category)), limit);
            forall x, y | x in r && y in s.confessions && Live(y) && InCategory(category, y) && y !in r ::
              y.createdAt <= x.createdAt
  {
    var r := Take(Newest(s.confessions, Wanted(category)), limit);
    TopOfFilter(s.confessions, Wanted(category), limit, CreatedKey);
    forall x, y | x in r && y in s.confessions && Live(y) && InCategory(category, y) && y !in r
      ensures y.createdAt <= x.createdAt
    {
      assert Wanted(category)(y);
      assert CreatedKey(y) <= CreatedKey(x);
    }
  }

  function Items(rows: seq<Confession>): (r: seq<Item>)
    ensures |r| == |rows|
    ensures forall i | 0 <= i < |rows| :: r[i] == ToItem(rows[i])
    ensures SortedDesc(rows, CreatedKey) ==> forall i, j | 0 <= i < j < |r| :: r[i].createdAt >= r[j].createdAt
  {
    seq(|rows|, i requires 0 <= i < |rows| => ToItem(rows[i]))
  }

  /** The rows shown: those fetched that are not waiting for review, order kept. */
  function Shown(s: Store, limit: nat, category: Option<string>): (r: seq<Confession>)
    ensures r == Filter(Fetched(s, limit, category), NotPending)
    ensures forall x :: x in r <==> x in Fetched(s, limit, category) && !IsPending(x)
    ensures |r| <= limit
    ensures SortedDesc(r, CreatedKey)
    ensures forall i | 0 <= i < |r| :: r[i] in s.confessions && Visible(r[i]) && InCategory(category, r[i])
  {
    var fetched := Fetched(s, limit, category);
    FilterPreservesSorted(fetched, NotPending, CreatedKey);
    var r := Filter(fetched, NotPending);
    assert forall x :: x in r <==> x in fetched && !IsPending(x) by {
      forall x | x in fetched && !IsPending(x) ensures x in r {
        var i :| 0 <= i < |fetched| && fetched[i] == x;
      }
    }
    r
  }

  /** `it` shows a public confession of the requested category as it is stored. */
  predicate Shows(s: Store, category: Option<string>, it: Item) {
    exists c | c in s.confessions :: Visible(c) && InCategory(category, c) && it == ToItem(c)
  }

  function Get(s: Store, limit: Option<nat>, category: Option<string>): (r: Reply<seq<Item>>)
    ensures r.Ok? && r.status == OK
    ensures |r.body| <= limit.GetOr(DEFAULT_LIMIT)
    // only public confessions of the requested category, each shown as it is stored
    ensures forall i | 0 <= i < |r.body| :: Shows(s, category, r.body[i])
    // every fetched confession that is not waiting for review is shown
    ensures forall c | c in Fetched(s, limit.GetOr(DEFAULT_LIMIT), category) && !IsPending(c) :: ToItem(c) in r.body
    // newest first
    ensures forall i, j | 0 <= i < j < |r.body| :: r.body[i].createdAt >= r.body[j].createdAt
  {
    var shown := Shown(s, limit.GetOr(DEFAULT_LIMIT), category);
    var items := Items(shown);
    ShownItemsShow(s, limit.GetOr(DEFAULT_LIMIT), category);
    FetchedItemsShown(s, limit.GetOr(DEFAULT_LIMIT), category);
    Ok(OK, items)
  }

  /** Each item shown is a public confession of the category. */
  lemma ShownItemsShow(s: Store, limit: nat, category: Option<string>)
    ensures var items := Items(Shown(s, limit, category));
            forall i | 0 <= i < |items| :: Shows(s, category, items[i])
  {
    var shown := Shown(s, limit, category);
    var items := Items(shown);
    forall i | 0 <= i < |items| ensures Shows(s, category, items[i]) {
      var c := shown[i];
      assert c in s.confessions && Visible(c) && InCategory(category, c);
      assert items[i] == ToItem(c);
    }
  }

  /** Each fetched confession that is not waiting for review has its item shown. */
  lemma FetchedItemsShown(s: Store, limit: nat, category: Option<string>)
    ensures var items := Items(Shown(s, limit, category));
            forall c | c in Fetched(s, limit, category) && !IsPending(c) :: ToItem(c) in items
  {
    var shown := Shown(s, limit, category);
    var items := Items(shown);
    forall c | c in Fetched(s, limit, category) && !IsPending(c) ensures ToItem(c) in items {
      var j :| 0 <= j < |shown| && shown[j] == c;
      assert items[j] == ToItem(c);
    }
  }

  /**
   * A public confession of the category is in the feed exactly when it is among
   * the confessions fetched: the `limit` newest live ones, taken before those
   * waiting for review are dropped.
   */
  lemma InFeedIffFetched(s: Store, limit: nat, category: Option<string>, c: Confession)
    requires UniqueIds(s.confessions)
    requires c in s.confessions && Visible(c) && InCategory(category, c)
    ensures ToItem(c) in Get(s, Some(limit), category).body <==> c in Fetched(s, limit, category)
  {
    var shown := Shown(s, limit, category);
    var items := Items(shown);
    assert Get(s, Some(limit), category).body == items;
    if ToItem(c) in items {
      var j :| 0 <= j < |items| && items[j] == ToItem(c);
      assert shown[j] in shown;
      SameItemSameRow(s, c, shown[j]);
    }
  }

  /** With unique ids, a feed item identifies the stored confession it shows. */
  lemma SameItemSameRow(s: Store, c: Confession, d: Confession)
    requires UniqueIds(s.confessions) && c in s.confessions && d in s.confessions
    requires ToItem(c) == ToItem(d)
    ensures c == d
  {
    var a :| 0 <= a < |s.confessions| && s.confessions[a] == c;
    var b :| 0 <= b < |s.confessions| && s.confessions[b] == d;
  }

  /** Given a category other than "all", every item of the feed is of that category. */
  lemma FeedHonoursCategory(s: Store, limit: Option<nat>, category: Option<string>, k: nat)
    requires OrAbsent(category).Some? && OrAbsent(category).value != ALL
    requires k < |Get(s, limit, category).body|
    ensures Get(s, limit, category).body[k].category == category
  {
    var it := Get(s, limit, category).body[k];
    assert Shows(s, category, it);
    var c :| c in s.confessions && Visible(c) && InCategory(category, c) && it == ToItem(c);
  }
}
