/**
 * The persisted data the route handlers read and write, in place of the Prisma
 * client: confession rows in insertion order (the order an unordered `findMany`
 * returns them in), each carrying its one-to-one moderation-queue entry; users
 * keyed by their unique alias; votes keyed by their unique (userId,
 * confessionId) pair.
 */
module Store {
  import opened Common
  import Js
  import opened Sorting

  datatype QueueEntry = QueueEntry(id: string, reason: string, reviewed: bool, createdAt: int)

  datatype Confession = Confession(
    id: string,
    content: string,
    category: Option<string>,   // name of the related Category, if there is one
    sentiment: real,
    flags: seq<string>,
    moderationStatus: string,
    createdAt: int,
    upvotes: int,
    downvotes: int,
    isDeleted: bool,
    author: Option<string>,     // alias of the related User, if there is one
    queue: Option<QueueEntry>)  // the related ModerationQueue entry, if there is one

  datatype User = User(id: string, alias: string)

  datatype Vote = Vote(id: string, userId: string, confessionId: string, value: int)

  datatype Store = Store(
    confessions: seq<Confession>,
    users: map<string, User>,
    votes: map<(string, string), Vote>)

  /** The row whose id is `id`: the first one, which is the only one in a valid store. */
  function IndexOf(rows: seq<Confession>, id: string): (r: Option<nat>)
    ensures r.Some? ==> r.value < |rows| && rows[r.value].id == id
    ensures r.None? <==> forall i | 0 <= i < |rows| :: rows[i].id != id
  {
    if rows == [] then None
    else if rows[0].id == id then Some(0)
    else match IndexOf(rows[1..], id)
         case None => None
         case Some(k) => Some(k + 1)
  }

  /** `confession.ModerationQueue ? !confession.ModerationQueue.reviewed : false`. */
  predicate IsPending(c: Confession) {
    c.queue.Some? && !c.queue.value.reviewed
  }

  /** The negation of `IsPending`, named so that every filter on it is the same term. */
  predicate NotPending(c: Confession) {
    !IsPending(c)
  }

  /** Shown on the public read paths: not soft-deleted and not waiting for review. */
  predicate Visible(c: Confession) {
    !c.isDeleted && !IsPending(c)
  }

  /** Not soft-deleted: `where: { isDeleted: false }`. */
  predicate Live(c: Confession) {
    !c.isDeleted
  }

  /** The sort key of `orderBy: { createdAt: "desc" }`. */
  function CreatedKey(c: Confession): real {
    c.createdAt as real
  }

  /** `findMany({ where, orderBy: { createdAt: "desc" } })`: the rows `keep` admits, newest first. */
  function Newest(rows: seq<Confession>, keep: Confession -> bool): (r: seq<Confession>)
    ensures SortedDesc(r, CreatedKey)
    ensures |r| == |Filter(rows, keep)|
    ensures multiset(r) == multiset(Filter(rows, keep))
    ensures forall x :: x in r <==> x in rows && keep(x)
  {
    var kept := Filter(rows, keep);
    SortKeepsMembers(kept, CreatedKey);
    assert |multiset(SortDesc(kept, CreatedKey))| == |multiset(kept)|;
    assert forall x :: x in kept <==> x in rows && keep(x) by {
      forall x | x in rows && keep(x) ensures x in kept {
        var i :| 0 <= i < |rows| && rows[i] == x;
      }
    }
    SortDesc(kept, CreatedKey)
  }

  /** `confession.Category?.name || null`. */
  function CategoryName(c: Confession): (r: Option<string>)
    ensures r.Some? <==> c.category.Some? && c.category.value != ""
    ensures r.Some? ==> r == c.category
  {
    Js.OrAbsent(c.category)
  }

  /** Number of votes of value `value` cast on confession `cid`. */
  function Tally(votes: map<(string, string), Vote>, cid: string, value: int): nat {
    |Voters(votes, cid, value)|
  }

  /** Keys of the votes of value `value` cast on confession `cid`. */
  function Voters(votes: map<(string, string), Vote>, cid: string, value: int): (r: set<(string, string)>)
    ensures forall x :: x in r <==> x in votes && x.1 == cid && votes[x].value == value
  {
    set k | k in votes && k.1 == cid && votes[k].value == value
  }

  predicate UniqueIds(rows: seq<Confession>) {
    forall i, j | 0 <= i < j < |rows| :: rows[i].id != rows[j].id
  }

  /** A stored vote sits under its own key, is +1 or -1, and points at an existing row. */
  predicate WellFormedVote(s: Store, k: (string, string)) {
    && k in s.votes
    && s.votes[k].userId == k.0
    && s.votes[k].confessionId == k.1
    && (s.votes[k].value == 1 || s.votes[k].value == -1)
    && IndexOf(s.confessions, k.1).Some?
  }

  /** The row's counters are the tallies of the votes currently cast on it. */
  predicate CountersMatch(votes: map<(string, string), Vote>, c: Confession) {
    c.upvotes == Tally(votes, c.id, 1) && c.downvotes == Tally(votes, c.id, -1)
  }

  /** The store invariant every write path keeps. */
  ghost predicate Valid(s: Store) {
    && UniqueIds(s.confessions)
    && (forall a | a in s.users :: s.users[a].alias == a)
    && (forall k | k in s.votes :: WellFormedVote(s, k))
    && (forall i | 0 <= i < |s.confessions| :: CountersMatch(s.votes, s.confessions[i]))
  }

  /** The empty database is valid. */
  lemma EmptyValid()
    ensures Valid(Store([], map[], map[]))
  {
  }

  /**
   * Writing vote `v` under key `k` changes the tally of `(cid, value)` by the
   * vote removed and the vote added, and by nothing else.
   */
  lemma TallyAfterWrite(votes: map<(string, string), Vote>, k: (string, string), v: Vote, cid: string, value: int)
    ensures Tally(votes[k := v], cid, value)
         == Tally(votes, cid, value)
            - (if k in votes && k.1 == cid && votes[k].value == value then 1 else 0)
            + (if k.1 == cid && v.value == value then 1 else 0)
  {
    var votes' := votes[k := v];
    var before := Voters(votes, cid, value);
    var after := Voters(votes', cid, value);
    var others := before - {k};
    var added: set<(string, string)> := if k.1 == cid && v.value == value then {k} else {};
    forall x
      ensures x in after <==> x in others || x in added
    {
      if x != k {
        assert x in votes' <==> x in votes;
      }
    }
    assert after == others + added;
    CardRemove(before, k);
  }

  lemma CardRemove<T>(a: set<T>, x: T)
    ensures |a| == |a - {x}| + (if x in a then 1 else 0)
  {
    if x in a {
      assert a == (a - {x}) + {x};
    } else {
      assert a == a - {x};
    }
  }

  /** Net score of a valid row: the sum of the current votes on it, each voter counted once. */
  lemma NetIsSumOfCurrentVotes(s: Store, i: nat)
    requires Valid(s) && i < |s.confessions|
    ensures s.confessions[i].upvotes - s.confessions[i].downvotes
         == Tally(s.votes, s.confessions[i].id, 1) - Tally(s.votes, s.confessions[i].id, -1)
    ensures s.confessions[i].upvotes >= 0 && s.confessions[i].downvotes >= 0
  {
  }
  /** Rows with the same ids in the same places are searched alike. */
  lemma {:induction false} IndexOfSameIds(a: seq<Confession>, b: seq<Confession>, id: string)
    requires |a| == |b| && forall j | 0 <= j < |a| :: a[j].id == b[j].id
    ensures IndexOf(a, id) == IndexOf(b, id)
  {
    if a != [] {
      IndexOfSameIds(a[1..], b[1..], id);
    }
  }

  /** Appending a row with a new id leaves every other id where it was. */
  lemma {:induction false} IndexOfAppend(a: seq<Confession>, c: Confession, id: string)
    requires IndexOf(a, c.id).None?
    ensures IndexOf(a + [c], id) == if id == c.id then Some(|a|) else IndexOf(a, id)
  {
    if a != [] {
      assert (a + [c])[1..] == a[1..] + [c];
      IndexOfAppend(a[1..], c, id);
    }
  }

  /**
   * Replacing a row by one with the same id and counters, votes untouched, keeps
   * the store valid: this covers approving and soft-deleting.
   */
  lemma ReplaceKeepsValid(s: Store, i: nat, c: Confession)
    requires Valid(s) && i < |s.confessions|
    requires c.id == s.confessions[i].id
    requires c.upvotes == s.confessions[i].upvotes && c.downvotes == s.confessions[i].downvotes
    ensures Valid(s.(confessions := s.confessions[i := c]))
  {
    var rows := s.confessions[i := c];
    forall id { IndexOfSameIds(s.confessions, rows, id); }
  }

  /**
   * Appending a row with a new id and zero counters, and adding users under
   * their own aliases, keeps the store valid: no vote points at the new row yet.
   */
  lemma AppendKeepsValid(s: Store, c: Confession, users: map<string, User>)
    requires Valid(s)
    requires IndexOf(s.confessions, c.id).None?
    requires c.upvotes == 0 && c.downvotes == 0
    requires forall a | a in users :: users[a].alias == a
    ensures Valid(Store(s.confessions + [c], users, s.votes))
  {
    var s' := Store(s.confessions + [c], users, s.votes);
    forall id { IndexOfAppend(s.confessions, c, id); }
    forall value: int
      ensures Tally(s.votes, c.id, value) == 0
    {
      assert Voters(s.votes, c.id, value) == {};
    }
    forall i | 0 <= i < |s'.confessions|
      ensures CountersMatch(s'.votes, s'.confessions[i])
    {
      if i < |s.confessions| {
        assert s'.confessions[i] == s.confessions[i];
      }
    }
  }
}
