/**
 * `GET /api/votes` (app/api/votes/route.ts): the votes cast by the user whose
 * alias is the `sessionId` cookie, as `{ confessionId, value }` items. The
 * query has no `orderBy`, so the items form a set.
 */
module VotesRoute {
  import opened Common
  import opened Store
  import VoteRoute

  datatype Item = Item(confessionId: string, value: int)

  function Get(s: Store, cookie: Option<string>): (r: Reply<set<Item>>)
    ensures r.Ok? && r.status == OK
    ensures cookie.None? || cookie.value == "" ==> r.body == {}
    ensures cookie.Some? && cookie.value !in s.users ==> r.body == {}
    ensures cookie.Some? && cookie.value != "" && cookie.value in s.users ==>
              forall cid, value ::
                Item(cid, value) in r.body <==>
                  exists k | k in s.votes :: s.votes[k] == Vote(s.votes[k].id, s.users[cookie.value].id, cid, value)
  {
    if cookie.None? || cookie.value == "" then Ok(OK, {})
    else if cookie.value !in s.users then Ok(OK, {})
    else
      var uid := s.users[cookie.value].id;
      Ok(OK, set k | k in s.votes && s.votes[k].userId == uid :: Item(s.votes[k].confessionId, s.votes[k].value))
  }

  /** In a valid store a user has at most one vote per confession, so no confession is listed twice. */
  lemma OneItemPerConfession(s: Store, cookie: Option<string>, a: Item, b: Item)
    requires Valid(s)
    requires a in Get(s, cookie).body && b in Get(s, cookie).body
    requires a.confessionId == b.confessionId
    ensures a == b
  {
    var uid := s.users[cookie.value].id;
    var ka :| ka in s.votes && s.votes[ka].userId == uid && Item(s.votes[ka].confessionId, s.votes[ka].value) == a;
    var kb :| kb in s.votes && s.votes[kb].userId == uid && Item(s.votes[kb].confessionId, s.votes[kb].value) == b;
    assert WellFormedVote(s, ka) && WellFormedVote(s, kb);
  }

  /** A vote the vote handler just recorded is listed for the same session, with its value. */
  lemma RecordedVoteIsListed(s: Store, body: Option<VoteRoute.Body>, session: string, ids: VoteRoute.FreshIds)
    requires Valid(s) && session != ""
    requires VoteRoute.Post(s, body, Some(session), ids).reply.Ok?
    ensures var r := VoteRoute.Post(s, body, Some(session), ids);
            Item(body.value.confessionId.s, r.reply.body.value) in Get(r.store, Some(session)).body
  {
    var r := VoteRoute.Post(s, body, Some(session), ids);
    var k := (r.store.users[session].id, body.value.confessionId.s);
    VoteRoute.PostKeepsValid(s, body, Some(session), ids);
    assert WellFormedVote(r.store, k);
  }
}
