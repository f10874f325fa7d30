/**
 * `GET /api/trending`: up to `2 * limit` live confessions of the category are
 * fetched in table order (the query has no ordering), those waiting for review
 * are dropped, the rest are ranked by a time-decayed net score and the best
 * `limit` are returned.
 */
module TrendingRoute {
  import opened Common
  import opened Js
  import opened Store
  import opened Sorting
  import ConfessionsRoute

  const DEFAULT_LIMIT := 10
  const UNKNOWN_AUTHOR := "unknown"

  type PosReal = x: real | x > 0.0 witness 1.0

  /**
   * The decay denominator `(ageHours + 2) ^ 1.8` of a confession created at the
   * given instant; it reads the clock and is computed in floating point, so it
   * is a parameter of the model.
   */
  type Decay = int -> PosReal

  /** Net votes divided by the decay denominator. */
  function Score(upvotes: int, downvotes: int, denominator: PosReal): real {
    (upvotes - downvotes) as real / denominator
  }

  /** The score has the sign of the net vote count, whatever the age. */
  lemma ScoreSign(upvotes: int, downvotes: int, denominator: PosReal)
    ensures Score(upvotes, downvotes, denominator) > 0.0 <==> upvotes > downvotes
    ensures Score(upvotes, downvotes, denominator) == 0.0 <==> upvotes == downvotes
  {
    var n := (upvotes - downvotes) as real;
    if n > 0.0 {
      assert n / denominator > 0.0;
    } else if n < 0.0 {
      assert n / denominator < 0.0;
    }
  }

  /** With a positive net, a smaller denominator (a fresher confession) scores higher. */
  lemma FresherRanksHigher(upvotes: int, downvotes: int, fresher: PosReal, older: PosReal)
    requires upvotes > downvotes && fresher < older
    ensures Score(upvotes, downvotes, fresher) > Score(upvotes, downvotes, older)
  {
    var n := (upvotes - downvotes) as real;
    assert n / fresher * fresher == n;
    assert n / older * older == n;
    assert n / older * fresher < n;
  }

  datatype Ranked = Ranked(row: Confession, score: real)

  function RankKey(x: Ranked): real { x.score }

  datatype Item = Item(id: string, content: string, category: Option<string>, sentiment: real, createdAt: int,
                       upvotes: int, downvotes: int, anonId: string, trendingScore: real)

  /** The listed fields of the row, with the row's own trending score appended. */
  function ToItem(x: Ranked): (r: Item)
    ensures r.id == x.row.id && r.content == x.row.content && r.sentiment == x.row.sentiment
    ensures r.createdAt == x.row.createdAt && r.upvotes == x.row.upvotes && r.downvotes == x.row.downvotes
    // `Category?.name || null` and `User?.alias || "unknown"`
    ensures r.category == CategoryName(x.row)
    ensures r.anonId == OrElse(x.row.author, UNKNOWN_AUTHOR)
    ensures r.trendingScore == x.score
  {
    var c := x.row;
    Item(c.id, c.content, CategoryName(c), c.sentiment, c.createdAt, c.upvotes, c.downvotes,
         OrElse(c.author, UNKNOWN_AUTHOR), x.score)
  }

  function Rank(c: Confession, decay: Decay): Ranked {
    Ranked(c, Score(c.upvotes, c.downvotes, decay(c.createdAt)))
  }

  /**
   * The first `2 * limit` live confessions of the category, in table order,
   * without those waiting for review.
   */
  function Candidates(s: Store, limit: nat, category: Option<string>): (r: seq<Confession>)
    ensures |r| <= 2 * limit
    ensures forall i | 0 <= i < |r| :: r[i] in s.confessions && Visible(r[i]) && ConfessionsRoute.InCategory(category, r[i])
    // exactly the fetched rows that are not pending
    ensures forall x :: x in r <==>
              x in Take(Filter(s.confessions, ConfessionsRoute.Wanted(category)), 2 * limit) && !IsPending(x)
  {
    var matching := Filter(s.confessions, ConfessionsRoute.Wanted(category));
    var fetched := Take(matching, 2 * limit);
    TakeMembers(matching, 2 * limit);
    assert forall x | x in fetched :: x in s.confessions && Live(x) && ConfessionsRoute.InCategory(category, x) by {
      forall x | x in fetched ensures x in s.confessions && Live(x) && ConfessionsRoute.InCategory(category, x) {
        var i :| 0 <= i < |matching| && matching[i] == x;
        assert ConfessionsRoute.Wanted(category)(x);
      }
    }
    var r := Filter(fetched, NotPending);
    assert forall x | x in fetched && !IsPending(x) :: x in r by {
      forall x | x in fetched && !IsPending(x) ensures x in r {
        var i :| 0 <= i < |fetched| && fetched[i] == x;
      }
    }
    r
  }

  function RankAll(rows: seq<Confession>, decay: Decay): (r: seq<Ranked>)
    ensures |r| == |rows|
    ensures forall i | 0 <= i < |rows| :: r[i] == Rank(rows[i], decay)
  {
    seq(|rows|, i requires 0 <= i < |rows| => Rank(rows[i], decay))
  }

  /** The ranked candidates, best first, cut to `limit`. */
  function Top(s: Store, limit: nat, category: Option<string>, decay: Decay): (r: seq<Ranked>)
    ensures var n := |Candidates(s, limit, category)|;
            |r| == if limit <= n then limit else n
    ensures SortedDesc(r, RankKey)
    ensures multiset(r) <= multiset(RankAll(Candidates(s, limit, category), decay))
  {
    var ranked := RankAll(Candidates(s, limit, category), decay);
    var sorted := SortDesc(ranked, RankKey);
    assert |multiset(sorted)| == |multiset(ranked)|;
    TakePreservesSorted(sorted, limit, RankKey);
    TakeIsSubMultiset(sorted, limit);
    Take(sorted, limit)
  }

  function Items(top: seq<Ranked>): (r: seq<Item>)
    ensures |r| == |top|
    ensures forall i | 0 <= i < |top| :: r[i] == ToItem(top[i])
    ensures SortedDesc(top, RankKey) ==> forall i, j | 0 <= i < j < |r| :: r[i].trendingScore >= r[j].trendingScore
  {
    seq(|top|, i requires 0 <= i < |top| => ToItem(top[i]))
  }

  function Get(s: Store, limit: Option<nat>, category: Option<string>, decay: Decay): (r: Reply<seq<Item>>)
    ensures r.Ok? && r.status == OK
    ensures var l := limit.GetOr(DEFAULT_LIMIT);
            var n := |Candidates(s, l, category)|;
            |r.body| == if l <= n then l else n
    // best first
    ensures forall i, j | 0 <= i < j < |r.body| :: r.body[i].trendingScore >= r.body[j].trendingScore
  {
    Ok(OK, Items(Top(s, limit.GetOr(DEFAULT_LIMIT), category, decay)))
  }

  /** Every trending item is a public confession of the category, scored by its own votes and age. */
  lemma TrendingItemsAreSound(s: Store, limit: nat, category: Option<string>, decay: Decay, k: nat)
    requires k < |Get(s, Some(limit), category, decay).body|
    ensures exists c | c in s.confessions ::
              && Visible(c) && ConfessionsRoute.InCategory(category, c)
              && Get(s, Some(limit), category, decay).body[k] == ToItem(Rank(c, decay))
  {
    var cands := Candidates(s, limit, category);
    var ranked := RankAll(cands, decay);
    var top := Top(s, limit, category, decay);
    assert top[k] in multiset(ranked);
    var i :| 0 <= i < |ranked| && ranked[i] == top[k];
    assert cands[i] in s.confessions;
  }

  /** No candidate left out of the trending list outranks one that is in it. */
  lemma TrendingIsTopOfCandidates(s: Store, limit: nat, category: Option<string>, decay: Decay)
    ensures var ranked := RankAll(Candidates(s, limit, category), decay);
            var top := Top(s, limit, category, decay);
            forall x, y | x in top && y in multiset(ranked) - multiset(top) :: x.score >= y.score
  {
    var ranked := RankAll(Candidates(s, limit, category), decay);
    TakeOfSortedIsTop(ranked, limit, RankKey);
  }

  /** Given a category other than "all", every trending item is of that category. */
  lemma TrendingHonoursCategory(s: Store, limit: nat, category: Option<string>, decay: Decay, k: nat)
    requires OrAbsent(category).Some? && OrAbsent(category).value != ConfessionsRoute.ALL
    requires k < |Get(s, Some(limit), category, decay).body|
    ensures Get(s, Some(limit), category, decay).body[k].category == category
  {
    TrendingItemsAreSound(s, limit, category, decay, k);
  }
}
