/**
 * `POST /api/admin/approve` (app/api/admin/approve/route.ts): marks the
 * confession's queue entry reviewed, if it has one, and emits one
 * `confession:new` broadcast tagged with its category. The handler checks
 * neither that the confession was pending nor that it is not deleted.
 */
module ApproveRoute {
  import opened Common
  import opened Js
  import opened Store

  datatype Body = Body(confessionId: Value)

  /** The payload of a `confession:new` event. */
  datatype NewConfession = NewConfession(
    id: string, content: string, category: Option<string>, sentiment: real, createdAt: int, anonId: string)

  /** One call of `eventBroadcaster.broadcast(event, data, category)`. */
  datatype Emit = Emit(event: string, payload: NewConfession, topic: Option<string>)

  /** The `confession: { id, content, category }` part of the success reply. */
  datatype Approved = Approved(id: string, content: string, category: Option<string>)

  datatype Outcome = Outcome(store: Store, reply: Reply<Approved>, emitted: seq<Emit>)

  const EVENT := "confession:new"
  const REQUIRED := "confessionId is required"
  const MISSING := "Confession not found"
  const FAILED := "Failed to approve confession"
  const UNKNOWN_AUTHOR := "unknown"

  /** `update({ data: { reviewed: true } })` on the entry, when there is one. */
  function MarkReviewed(q: Option<QueueEntry>): (r: Option<QueueEntry>)
    ensures r.Some? <==> q.Some?
    ensures r.Some? ==> r.value == q.value.(reviewed := true)
  {
    match q
    case None => None
    case Some(e) => Some(e.(reviewed := true))
  }

  /** The broadcast announcing row `c`. */
  function Announce(c: Confession): (e: Emit)
    ensures e.event == EVENT && e.payload.id == c.id && e.payload.content == c.content
    ensures e.topic == e.payload.category == CategoryName(c)
    ensures e.payload.anonId == OrElse(c.author, UNKNOWN_AUTHOR)
  {
    var category := CategoryName(c);
    Emit(EVENT, NewConfession(c.id, c.content, category, c.sentiment, c.createdAt, OrElse(c.author, UNKNOWN_AUTHOR)),
         OrAbsent(category))
  }

  function Post(s: Store, body: Option<Body>): (r: Outcome)
    // errors change nothing and broadcast nothing
    ensures r.reply.Err? ==> r.store == s && r.emitted == []
    ensures body.None? ==> r.reply == Err(SERVER_ERROR, FAILED)
    ensures body.Some? && !Truthy(body.value.confessionId) ==> r.reply == Err(BAD_REQUEST, REQUIRED)
    ensures (body.Some? && body.value.confessionId.Str? && body.value.confessionId.s != ""
             && IndexOf(s.confessions, body.value.confessionId.s).None?) ==> r.reply == Err(NOT_FOUND, MISSING)
    // success: the entry reviewed, nothing else written, exactly one broadcast
    ensures r.reply.Ok? <==>
              && body.Some? && body.value.confessionId.Str? && body.value.confessionId.s != ""
              && IndexOf(s.confessions, body.value.confessionId.s).Some?
    ensures r.reply.Ok? ==>
              var i := IndexOf(s.confessions, body.value.confessionId.s).value;
              var c := s.confessions[i];
              && r.reply.status == OK
              && r.reply.body == Approved(c.id, c.content, CategoryName(c))
              && r.store.users == s.users && r.store.votes == s.votes
              && |r.store.confessions| == |s.confessions|
              && r.store.confessions[i] == c.(queue := MarkReviewed(c.queue))
              && (forall j | 0 <= j < |s.confessions| && j != i :: r.store.confessions[j] == s.confessions[j])
              && r.emitted == [Announce(c)]
  {
    if body.None? then Outcome(s, Err(SERVER_ERROR, FAILED), [])
    else
      var id := body.value.confessionId;
      if !Truthy(id) then Outcome(s, Err(BAD_REQUEST, REQUIRED), [])
      else if !id.Str? then Outcome(s, Err(SERVER_ERROR, FAILED), [])    // rejected by findUnique
      else
        match IndexOf(s.confessions, id.s)
        case None => Outcome(s, Err(NOT_FOUND, MISSING), [])
        case Some(i) =>
          var c := s.confessions[i];
          var category := CategoryName(c);
          Outcome(s.(confessions := s.confessions[i := c.(queue := MarkReviewed(c.queue))]),
                  Ok(OK, Approved(c.id, c.content, category)),
                  [Announce(c)])
  }

  /** Approving keeps the store valid. */
  lemma PostKeepsValid(s: Store, body: Option<Body>)
    requires Valid(s)
    ensures Valid(Post(s, body).store)
  {
    if Post(s, body).reply.Ok? {
      var i := IndexOf(s.confessions, body.value.confessionId.s).value;
      ReplaceKeepsValid(s, i, s.confessions[i].(queue := MarkReviewed(s.confessions[i].queue)));
    }
  }

  /**
   * After an approve, the confession has no unreviewed entry, so it is public
   * unless it was deleted; the broadcast goes out whether or not it had been pending.
   */
  lemma ApprovedIsNotPending(s: Store, body: Option<Body>)
    requires Post(s, body).reply.Ok?
    ensures var i := IndexOf(s.confessions, body.value.confessionId.s).value;
            && !IsPending(Post(s, body).store.confessions[i])
            && (Visible(Post(s, body).store.confessions[i]) <==> !s.confessions[i].isDeleted)
            && |Post(s, body).emitted| == 1
  {
  }
}
