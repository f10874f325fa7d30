/**
 * `GET /api/admin/pending`: the moderation queue entries not yet reviewed
 * whose confession is not deleted, newest entry first, each with a summary of
 * its confession.
 */
module PendingRoute {
  import opened Common
  import opened Js
  import opened Store
  import opened Sorting

  datatype Summary = Summary(id: string, content: string, category: Option<string>, sentiment: real,
                             createdAt: int, author: Option<string>)

  datatype Item = Item(id: string, confessionId: string, reason: string, createdAt: int, confession: Summary)

  /** The rows the query selects: an unreviewed entry on a confession that is not deleted. */
  predicate Awaiting(c: Confession) {
    IsPending(c) && Live(c)
  }

  /** Sort key: the queue entry's creation time (rows without an entry are never sorted here). */
  function QueuedKey(c: Confession): real {
    if c.queue.Some? then c.queue.value.createdAt as real else 0.0
  }

  function ToItem(c: Confession): (r: Item)
    requires c.queue.Some?
    ensures r.confessionId == r.confession.id == c.id
    ensures r.id == c.queue.value.id && r.reason == c.queue.value.reason
    ensures c.author.None? ==> r.confession.author.None?
    ensures r.createdAt == c.queue.value.createdAt
    ensures r.confession == Summary(c.id, c.content, CategoryName(c), c.sentiment, c.createdAt, OrAbsent(c.author))
  {
    var q := c.queue.value;
    Item(q.id, c.id, q.reason, q.createdAt,
         Summary(c.id, c.content, CategoryName(c), c.sentiment, c.createdAt, OrAbsent(c.author)))
  }

  function Items(rows: seq<Confession>): (r: seq<Item>)
    requires forall i | 0 <= i < |rows| :: rows[i].queue.Some?
    ensures |r| == |rows|
    ensures forall i | 0 <= i < |rows| :: r[i] == ToItem(rows[i])
    ensures SortedDesc(rows, QueuedKey) ==> forall i, j | 0 <= i < j < |r| :: r[i].createdAt >= r[j].createdAt
  {
    var r := seq(|rows|, i requires 0 <= i < |rows| => ToItem(rows[i]));
    assert forall i | 0 <= i < |rows| :: r[i].createdAt as real == QueuedKey(rows[i]);
    r
  }

  function Queue(s: Store): (r: seq<Confession>)
    ensures SortedDesc(r, QueuedKey)
    ensures forall x :: x in r <==> x in s.confessions && Awaiting(x)
  {
    var kept := Filter(s.confessions, Awaiting);
    SortKeepsMembers(kept, QueuedKey);
    assert forall x :: x in kept <==> x in s.confessions && Awaiting(x) by {
      forall x | x in s.confessions && Awaiting(x) ensures x in kept {
        var i :| 0 <= i < |s.confessions| && s.confessions[i] == x;
      }
    }
    SortDesc(kept, QueuedKey)
  }

  function Get(s: Store): (r: Reply<seq<Item>>)
    ensures r.Ok? && r.status == OK
    // newest queue entry first
    ensures forall i, j | 0 <= i < j < |r.body| :: r.body[i].createdAt >= r.body[j].createdAt
  {
    var rows := Queue(s);
    assert forall i | 0 <= i < |rows| :: rows[i].queue.Some? by {
      forall i | 0 <= i < |rows| ensures rows[i].queue.Some? {
        assert rows[i] in rows;
      }
    }
    Ok(OK, Items(rows))
  }

  /** Each listed entry is unreviewed and belongs to a confession that is not deleted. */
  lemma ListedEntriesAwaitReview(s: Store, k: nat)
    requires k < |Get(s).body|
    ensures exists c | c in s.confessions ::
              && c.queue.Some? && !c.queue.value.reviewed && !c.isDeleted
              && Get(s).body[k] == ToItem(c)
  {
    var rows := Queue(s);
    assert rows[k] in rows;
  }

  /** Every unreviewed entry on a confession that is not deleted is listed. */
  lemma EveryAwaitingEntryIsListed(s: Store, c: Confession)
    requires c in s.confessions && c.queue.Some? && !c.queue.value.reviewed && !c.isDeleted
    ensures ToItem(c) in Get(s).body
  {
    var rows := Queue(s);
    assert c in rows;
    var k :| 0 <= k < |rows| && rows[k] == c;
    assert Get(s).body[k] == ToItem(c);
  }
}
