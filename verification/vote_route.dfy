/**
 * `POST /api/vote` (app/api/vote/route.ts): validates the body, finds or
 * creates the user whose alias is the session id, then creates the vote,
 * changes it in place, or leaves it alone, moving the confession's counters by
 * the difference. A Prisma call that throws (a non-string id in a `where`, a
 * vote for a confession that does not exist, an update of a missing row)
 * becomes the handler's 500 reply; writes already awaited stay in the store.
 */
module VoteRoute {
  import opened Common
  import opened Js
  import opened Store
  import NanoId

  datatype Body = Body(confessionId: Value, value: Value)

  /** The fresh identifiers nanoid would hand out during one call. */
  datatype FreshIds = FreshIds(sessionId: NanoId.Id12, userId: NanoId.Id21, voteId: NanoId.Id21)

  /** The `vote: { id, value }` part of the success reply. */
  datatype Recorded = Recorded(voteId: string, value: int)

  /** The store afterwards, the reply, and the session cookie set when the request had none. */
  datatype Outcome = Outcome(store: Store, reply: Reply<Recorded>, newSession: Option<string>)

  const REQUIRED := "confessionId and value are required"
  const BAD_VALUE := "value must be 1 (upvote) or -1 (downvote)"
  const FAILED := "Failed to record vote"

  /** The session the request runs under: the cookie when it is set, else a fresh id. */
  function Session(cookie: Option<string>, ids: FreshIds): (r: string)
    ensures cookie.Some? && cookie.value != "" ==> r == cookie.value
    ensures cookie.None? || cookie.value == "" ==> r == ids.sessionId
  {
    OrElse(cookie, ids.sessionId)
  }

  /** `prisma.user.upsert({ where: { alias }, update: {}, create: { id, alias } })`. */
  function UpsertUser(users: map<string, User>, alias: string, id: string): (r: map<string, User>)
    ensures alias in r
    ensures alias in users ==> r == users
    ensures alias !in users ==> r == users[alias := User(id, alias)]
  {
    if alias in users then users else users[alias := User(id, alias)]
  }

  /** A counter `increment`: the previous vote taken away and the next one added. */
  function Delta(previous: Option<int>, next: int, side: int): int {
    (if previous == Some(side) then -1 else 0) + (if next == side then 1 else 0)
  }

  /** `prisma.confession.update` of the counters of the row with id `cid`. */
  function Bump(rows: seq<Confession>, cid: string, previous: Option<int>, next: int): (r: Option<seq<Confession>>)
    ensures r.None? <==> IndexOf(rows, cid).None?
    ensures r.Some? ==> var i := IndexOf(rows, cid).value;
              && |r.value| == |rows|
              && r.value[i] == rows[i].(upvotes := rows[i].upvotes + Delta(previous, next, 1),
                                        downvotes := rows[i].downvotes + Delta(previous, next, -1))
              && forall j | 0 <= j < |rows| && j != i :: r.value[j] == rows[j]
  {
    match IndexOf(rows, cid)
    case None => None
    case Some(i) =>
      var c := rows[i];
      Some(rows[i := c.(upvotes := c.upvotes + Delta(previous, next, 1), downvotes := c.downvotes + Delta(previous, next, -1))])
  }

  /** Everything after the user upsert: the vote of user `uid` on confession `cid`. */
  function Record(s: Store, uid: string, cid: string, value: int, voteId: string): (r: (Store, Reply<Recorded>))
    ensures r.0.users == s.users
  {
    var key := (uid, cid);
    if key in s.votes then
      var existing := s.votes[key];
      if existing.value != value then
        var s' := s.(votes := s.votes[key := existing.(value := value)]);
        match Bump(s.confessions, cid, Some(existing.value), value)
        case None => (s', Err(SERVER_ERROR, FAILED))
        case Some(rows) => (s'.(confessions := rows), Ok(OK, Recorded(existing.id, value)))
      else
        (s, Ok(OK, Recorded(existing.id, existing.value)))
    else
      match Bump(s.confessions, cid, None, value)
      case None => (s, Err(SERVER_ERROR, FAILED))
      case Some(rows) =>
        (Store(rows, s.users, s.votes[key := Vote(voteId, uid, cid, value)]), Ok(OK, Recorded(voteId, value)))
  }

  /** The handler. */
  function Post(s: Store, body: Option<Body>, cookie: Option<string>, ids: FreshIds): (r: Outcome)
    // an unreadable body, a missing field or a value other than 1 and -1: nothing is written
    ensures body.None? ==> r == Outcome(s, Err(SERVER_ERROR, FAILED), None)
    ensures body.Some? && (!Truthy(body.value.confessionId) || body.value.value == Undefined) ==>
              r == Outcome(s, Err(BAD_REQUEST, REQUIRED), None)
    ensures body.Some? && Truthy(body.value.confessionId) && body.value.value != Undefined
            && body.value.value != Number(1.0) && body.value.value != Number(-1.0) ==>
              r == Outcome(s, Err(BAD_REQUEST, BAD_VALUE), None)
    // past validation the session's user exists, and a cookie is set only when there was none
    ensures r.reply.Ok? || r.reply.status == SERVER_ERROR ==> body.Some? || r.store == s
    ensures r.reply.Ok? ==> Session(cookie, ids) in r.store.users
    ensures r.newSession.Some? <==>
              && body.Some? && Truthy(body.value.confessionId) && (body.value.value == Number(1.0) || body.value.value == Number(-1.0))
              && (cookie.None? || cookie.value == "")
    ensures r.newSession.Some? ==> r.newSession.value == ids.sessionId
    // a recorded vote is the stored vote of the session's user on that confession
    ensures r.reply.Ok? ==>
              && body.Some? && body.value.confessionId.Str?
              && var k := (r.store.users[Session(cookie, ids)].id, body.value.confessionId.s);
                 k in r.store.votes && r.store.votes[k].value == r.reply.body.value
                 && r.store.votes[k].id == r.reply.body.voteId
                 && (r.reply.body.value == 1 || r.reply.body.value == -1)
                 && Number(r.reply.body.value as real) == body.value.value
  {
    if body.None? then Outcome(s, Err(SERVER_ERROR, FAILED), None)
    else
      var b := body.value;
      if !Truthy(b.confessionId) || b.value == Undefined then Outcome(s, Err(BAD_REQUEST, REQUIRED), None)
      else if b.value != Number(1.0) && b.value != Number(-1.0) then Outcome(s, Err(BAD_REQUEST, BAD_VALUE), None)
      else
        var value := if b.value == Number(1.0) then 1 else -1;
        var session := Session(cookie, ids);
        var newSession := if cookie.Some? && cookie.value != "" then None else Some(ids.sessionId);
        var users := UpsertUser(s.users, session, ids.userId);
        var s1 := s.(users := users);
        if !b.confessionId.Str? then Outcome(s1, Err(SERVER_ERROR, FAILED), newSession)
        else
          var (s2, reply) := Record(s1, users[session].id, b.confessionId.s, value, ids.voteId);
          Outcome(s2, reply, newSession)
  }
  /** The id of the user the request acts for, once the upsert has run. */
  function VoterId(s: Store, cookie: Option<string>, ids: FreshIds): string {
    UpsertUser(s.users, Session(cookie, ids), ids.userId)[Session(cookie, ids)].id
  }

  /** A body that passes validation, for confession `cid` and vote `value`. */
  predicate WellFormed(body: Option<Body>, cid: string, value: int) {
    && (value == 1 || value == -1)
    && body == Some(Body(Str(cid), Number(value as real)))
    && cid != ""
  }

  /**
   * Writing vote `v` under `key` and bumping the row `key.1` by the difference
   * keeps every row's counters equal to the tallies of its current votes.
   */
  lemma WriteAndBumpKeepsValid(s: Store, key: (string, string), v: Vote, previous: Option<int>)
    requires Valid(s)
    requires v.userId == key.0 && v.confessionId == key.1 && (v.value == 1 || v.value == -1)
    requires previous == if key in s.votes then Some(s.votes[key].value) else None
    requires Bump(s.confessions, key.1, previous, v.value).Some?
    ensures Valid(Store(Bump(s.confessions, key.1, previous, v.value).value, s.users, s.votes[key := v]))
  {
    var rows := Bump(s.confessions, key.1, previous, v.value).value;
    var s' := Store(rows, s.users, s.votes[key := v]);
    assert forall j | 0 <= j < |rows| :: rows[j].id == s.confessions[j].id;
    assert UniqueIds(rows);
    forall k | k in s'.votes
      ensures WellFormedVote(s', k)
    {
      IndexOfSameIds(s.confessions, rows, k.1);
      if k != key {
        assert WellFormedVote(s, k);
      }
    }
    BumpMatchesTallies(s.votes, s.confessions, key, v, previous);
  }

  /** The counter deltas of a bump are exactly the tally changes of the vote written. */
  lemma BumpMatchesTallies(votes: map<(string, string), Vote>, rows: seq<Confession>,
                           key: (string, string), v: Vote, previous: Option<int>)
    requires UniqueIds(rows)
    requires forall j | 0 <= j < |rows| :: CountersMatch(votes, rows[j])
    requires previous == if key in votes then Some(votes[key].value) else None
    requires Bump(rows, key.1, previous, v.value).Some?
    ensures var rows' := Bump(rows, key.1, previous, v.value).value;
            forall j | 0 <= j < |rows'| :: CountersMatch(votes[key := v], rows'[j])
  {
    var rows' := Bump(rows, key.1, previous, v.value).value;
    var i := IndexOf(rows, key.1).value;
    forall j | 0 <= j < |rows'|
      ensures CountersMatch(votes[key := v], rows'[j])
    {
      TallyAfterWrite(votes, key, v, rows'[j].id, 1);
      TallyAfterWrite(votes, key, v, rows'[j].id, -1);
      if j != i {
        assert rows'[j] == rows[j];
        assert rows[j].id != key.1;
      }
    }
  }

  /** Recording a vote of +1 or -1 keeps a valid store valid, whichever path it takes. */
  lemma RecordKeepsValid(s: Store, uid: string, cid: string, value: int, voteId: string)
    requires Valid(s) && (value == 1 || value == -1)
    ensures Valid(Record(s, uid, cid, value, voteId).0)
  {
    var key := (uid, cid);
    if key in s.votes {
      var existing := s.votes[key];
      if existing.value != value {
        assert WellFormedVote(s, key);
        WriteAndBumpKeepsValid(s, key, existing.(value := value), Some(existing.value));
      }
    } else if IndexOf(s.confessions, cid).Some? {
      WriteAndBumpKeepsValid(s, key, Vote(voteId, uid, cid, value), None);
    }
  }

  /** Creating the session's user keeps a valid store valid. */
  lemma UpsertKeepsValid(s: Store, alias: string, id: string)
    requires Valid(s)
    ensures Valid(s.(users := UpsertUser(s.users, alias, id)))
  {
    var s1 := s.(users := UpsertUser(s.users, alias, id));
    assert forall k | k in s1.votes :: WellFormedVote(s1, k) by {
      forall k | k in s1.votes ensures WellFormedVote(s1, k) {
        assert WellFormedVote(s, k);
      }
    }
  }

  /** Every outcome of the vote handler leaves a valid store valid. */
  lemma PostKeepsValid(s: Store, body: Option<Body>, cookie: Option<string>, ids: FreshIds)
    requires Valid(s)
    ensures Valid(Post(s, body, cookie, ids).store)
  {
    if body.Some? && Truthy(body.value.confessionId) && body.value.value != Undefined
       && (body.value.value == Number(1.0) || body.value.value == Number(-1.0)) {
      var value := if body.value.value == Number(1.0) then 1 else -1;
      var session := Session(cookie, ids);
      var s1 := s.(users := UpsertUser(s.users, session, ids.userId));
      UpsertKeepsValid(s, session, ids.userId);
      if body.value.confessionId.Str? {
        var uid := s1.users[session].id;
        RecordKeepsValid(s1, uid, body.value.confessionId.s, value, ids.voteId);
        assert Post(s, body, cookie, ids).store == Record(s1, uid, body.value.confessionId.s, value, ids.voteId).0;
      }
    }
  }

  /** A first vote creates one record and adds one to the matching counter. */
  lemma FirstVoteCounts(s: Store, cid: string, value: int, body: Option<Body>, cookie: Option<string>, ids: FreshIds)
    requires WellFormed(body, cid, value)
    requires (VoterId(s, cookie, ids), cid) !in s.votes
    requires IndexOf(s.confessions, cid).Some?
    ensures var r := Post(s, body, cookie, ids);
            var key := (VoterId(s, cookie, ids), cid);
            var i := IndexOf(s.confessions, cid).value;
            && r.reply == Ok(OK, Recorded(ids.voteId, value))
            && r.store.votes == s.votes[key := Vote(ids.voteId, key.0, cid, value)]
            && |r.store.confessions| == |s.confessions|
            && r.store.confessions[i].upvotes == s.confessions[i].upvotes + (if value == 1 then 1 else 0)
            && r.store.confessions[i].downvotes == s.confessions[i].downvotes + (if value == -1 then 1 else 0)
            && forall j | 0 <= j < |s.confessions| && j != i :: r.store.confessions[j] == s.confessions[j]
  {
  }

  /** Casting the same vote again changes neither the votes nor any counter. */
  lemma RepeatVoteChangesNothing(s: Store, cid: string, value: int, body: Option<Body>, cookie: Option<string>, ids: FreshIds)
    requires WellFormed(body, cid, value)
    requires var key := (VoterId(s, cookie, ids), cid); key in s.votes && s.votes[key].value == value
    ensures var r := Post(s, body, cookie, ids);
            && r.reply == Ok(OK, Recorded(s.votes[(VoterId(s, cookie, ids), cid)].id, value))
            && r.store.votes == s.votes
            && r.store.confessions == s.confessions
  {
  }

  /** Past validation, the handler is the user upsert followed by `Record`. */
  lemma PostIsRecord(s: Store, cid: string, value: int, body: Option<Body>, cookie: Option<string>, ids: FreshIds)
    requires WellFormed(body, cid, value)
    ensures var s1 := s.(users := UpsertUser(s.users, Session(cookie, ids), ids.userId));
            var rec := Record(s1, VoterId(s, cookie, ids), cid, value, ids.voteId);
            Post(s, body, cookie, ids).store == rec.0 && Post(s, body, cookie, ids).reply == rec.1
  {
  }

  /** `Record` on a vote already cast the other way: the vote is changed in place and one count moves. */
  lemma RecordFlip(s: Store, uid: string, cid: string, value: int, voteId: string)
    requires Valid(s) && (value == 1 || value == -1)
    requires (uid, cid) in s.votes && s.votes[(uid, cid)].value != value
    ensures var r := Record(s, uid, cid, value, voteId);
            var key := (uid, cid);
            var i := IndexOf(s.confessions, cid).value;
            && IndexOf(s.confessions, cid).Some?
            && r.1 == Ok(OK, Recorded(s.votes[key].id, value))
            && r.0.votes == s.votes[key := s.votes[key].(value := value)]
            && |r.0.confessions| == |s.confessions|
            && r.0.confessions[i].upvotes == s.confessions[i].upvotes + value
            && r.0.confessions[i].downvotes == s.confessions[i].downvotes - value
            && forall j | 0 <= j < |s.confessions| && j != i :: r.0.confessions[j] == s.confessions[j]
  {
    assert WellFormedVote(s, (uid, cid));
    assert s.votes[(uid, cid)].value == -value;
  }

  /** Flipping a vote changes it in place and moves exactly one count across. */
  lemma FlipMovesOneCount(s: Store, cid: string, value: int, body: Option<Body>, cookie: Option<string>, ids: FreshIds)
    requires Valid(s)
    requires WellFormed(body, cid, value)
    requires var key := (VoterId(s, cookie, ids), cid); key in s.votes && s.votes[key].value != value
    ensures var r := Post(s, body, cookie, ids);
            var key := (VoterId(s, cookie, ids), cid);
            var i := IndexOf(s.confessions, cid).value;
            && IndexOf(s.confessions, cid).Some?
            && r.reply == Ok(OK, Recorded(s.votes[key].id, value))
            && r.store.votes == s.votes[key := s.votes[key].(value := value)]
            && |r.store.confessions| == |s.confessions|
            && r.store.confessions[i].upvotes == s.confessions[i].upvotes + value
            && r.store.confessions[i].downvotes == s.confessions[i].downvotes - value
            && forall j | 0 <= j < |s.confessions| && j != i :: r.store.confessions[j] == s.confessions[j]
  {
    var session := Session(cookie, ids);
    UpsertKeepsValid(s, session, ids.userId);
    RecordFlip(s.(users := UpsertUser(s.users, session, ids.userId)), VoterId(s, cookie, ids), cid, value, ids.voteId);
    PostIsRecord(s, cid, value, body, cookie, ids);
  }

  /** Two calls with the same session cookie act for one and the same user. */
  lemma SameSessionSameUser(s: Store, body: Option<Body>, body': Option<Body>, session: string, ids: FreshIds, ids': FreshIds)
    requires session != ""
    requires Post(s, body, Some(session), ids).reply.Ok?
    ensures var s' := Post(s, body, Some(session), ids).store;
            && Post(s', body', Some(session), ids').store.users == s'.users
            && VoterId(s', Some(session), ids') == VoterId(s, Some(session), ids)
  {
  }
}
