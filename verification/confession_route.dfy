/**
 * `POST /api/confession` (app/api/confession/route.ts): checks the content
 * length, screens the text, normalises its sentiment, stores the confession
 * under a fresh `anon_` author, and queues it for review when it is profane.
 * leo-profanity and the sentiment library are uninterpreted functions; nanoid
 * and the database's default ids are fresh-id arguments. The handler neither
 * consults a rate limiter nor broadcasts: it has neither among its arguments.
 */
module ConfessionRoute {
  import opened Common
  import opened Js
  import opened Store
  import NanoId

  datatype Body = Body(content: Value, category: Value)

  /** `leoProfanity.check`, `leoProfanity.clean` and `sentiment.analyze(..).score`. */
  datatype Screener = Screener(isProfane: string -> bool, clean: string -> string, rawScore: string -> int)

  /** The fresh identifiers one call draws: two from nanoid, three from the database's defaults. */
  datatype FreshIds = FreshIds(
    sessionId: NanoId.Id12,
    aliasSuffix: NanoId.Id6,
    confessionId: string,
    queueId: string,
    userId: string)

  /** The success body: the created record and the session id. */
  datatype Submitted = Submitted(confession: Confession, sessionId: string)

  const TOO_SHORT := "Confession content too short"
  const FAILED := "Failed to post confession"
  const PROFANITY_REASON := "Profanity detected"
  const DEFAULT_CATEGORY := "OTHER"
  const MIN_LENGTH := 5

  function Min(a: real, b: real): real { if a <= b then a else b }
  function Max(a: real, b: real): real { if a >= b then a else b }

  /** `Math.max(-1, Math.min(1, score / 10))`. */
  function Normalize(raw: int): (r: real)
    ensures -1.0 <= r <= 1.0
    ensures -10 <= raw <= 10 ==> r == raw as real / 10.0
    ensures raw >= 10 ==> r == 1.0
    ensures raw <= -10 ==> r == -1.0
  {
    Max(-1.0, Min(1.0, raw as real / 10.0))
  }

  /** `anon_${nanoid(6)}`. */
  function Alias(suffix: NanoId.Id6): (a: string)
    ensures |a| == 11 && a[..5] == "anon_" && a[5..] == suffix
  {
    "anon_" + suffix
  }

  /** Content that is missing, or whose trimmed length is under five UTF-16 code units. */
  predicate TooShort(content: Value) {
    !Truthy(content) || (content.Str? && Utf16Length(Trim(content.s)) < MIN_LENGTH)
  }

  /** The row the handler stores, before any queue entry is attached. */
  function NewRecord(content: string, category: string, scr: Screener, ids: FreshIds, now: int): Confession {
    var profane := scr.isProfane(content);
    var cleaned := if profane then scr.clean(content) else content;
    Confession(
      id := ids.confessionId,
      content := cleaned,
      category := Some(category),
      sentiment := Normalize(scr.rawScore(cleaned)),
      flags := if profane then ["profanity"] else [],
      moderationStatus := if profane then "pending" else "approved",
      createdAt := now,
      upvotes := 0,
      downvotes := 0,
      isDeleted := false,
      author := Some(Alias(ids.aliasSuffix)),
      queue := None)
  }

  /** `author: { connectOrCreate: { where: { alias }, create: { alias } } }`. */
  function ConnectAuthor(users: map<string, User>, alias: string, id: string): (r: map<string, User>)
    ensures alias in r && r.Keys == users.Keys + {alias}
    ensures forall a | a in users :: r[a] == users[a]
  {
    if alias in users then users else users[alias := User(id, alias)]
  }

  /** The category the record gets: `category || "OTHER"`, for a string or a falsy value. */
  function CategoryOf(category: Value): string
    requires category.Str? || !Truthy(category)
  {
    if Truthy(category) then category.s else DEFAULT_CATEGORY
  }

  /** The success path: create the record, connect its author, queue it if profane. */
  function Accept(s: Store, content: string, category: string, sessionHeader: Option<string>,
                  scr: Screener, ids: FreshIds, now: int): (r: (Store, Reply<Submitted>))
    requires IndexOf(s.confessions, ids.confessionId).None?
    ensures r.1.Ok? && r.1.status == CREATED
    ensures |r.0.confessions| == |s.confessions| + 1
    ensures var profane := scr.isProfane(content);
            var c := r.1.body.confession;
            var row := r.0.confessions[|s.confessions|];
            // one new row at the end, nothing else in the table or the votes changes
            && r.0.confessions == s.confessions + [row]
            && row == c.(queue := row.queue)
            && c.id == ids.confessionId
            && r.0.votes == s.votes
            // the screening decision
            && c.content == (if profane then scr.clean(content) else content)
            && -1.0 <= c.sentiment <= 1.0
            && c.sentiment == Normalize(scr.rawScore(c.content))
            && (profane <==> c.moderationStatus == "pending")
            && (!profane <==> c.moderationStatus == "approved")
            && c.flags == (if profane then ["profanity"] else [])
            && (profane <==> row.queue.Some?)
            && (profane ==> row.queue == Some(QueueEntry(ids.queueId, PROFANITY_REASON, false, now)))
            // category, author, counters and session
            && c.category == Some(category)
            && c.author.Some? && |c.author.value| == 11 && c.author.value[..5] == "anon_"
            && c.author.value in r.0.users
            && (forall a | a in s.users :: a in r.0.users && r.0.users[a] == s.users[a])
            && c.upvotes == 0 && c.downvotes == 0 && !c.isDeleted && c.createdAt == now
            && r.1.body.sessionId == OrElse(sessionHeader, ids.sessionId)
  {
    var c := NewRecord(content, category, scr, ids, now);
    var users := ConnectAuthor(s.users, c.author.value, ids.userId);
    var row := if scr.isProfane(content)
               then c.(queue := Some(QueueEntry(ids.queueId, PROFANITY_REASON, false, now)))
               else c;
    var sessionId := OrElse(sessionHeader, ids.sessionId);
    (Store(s.confessions + [row], users, s.votes), Ok(CREATED, Submitted(c, sessionId)))
  }

  /** The handler; `now` is the database clock that fills `createdAt`. */
  function Post(s: Store, body: Option<Body>, sessionHeader: Option<string>, scr: Screener, ids: FreshIds, now: int)
    : (r: (Store, Reply<Submitted>))
    // every failure leaves the store as it was
    ensures r.1.Err? ==> r.0 == s
    ensures body.None? ==> r.1 == Err(SERVER_ERROR, FAILED)
    ensures body.Some? && TooShort(body.value.content) ==> r.1 == Err(BAD_REQUEST, TOO_SHORT)
    ensures body.Some? && body.value.content.Str? && !TooShort(body.value.content)
            && (body.value.category.Str? || !Truthy(body.value.category))
            && IndexOf(s.confessions, ids.confessionId).None?
            ==> r == Accept(s, body.value.content.s, CategoryOf(body.value.category), sessionHeader, scr, ids, now)
    ensures r.1.Ok? ==>
              && body.Some? && body.value.content.Str? && !TooShort(body.value.content)
              && (body.value.category.Str? || !Truthy(body.value.category))
              && IndexOf(s.confessions, ids.confessionId).None?
  {
    if body.None? then (s, Err(SERVER_ERROR, FAILED))
    else
      var b := body.value;
      if TooShort(b.content) then (s, Err(BAD_REQUEST, TOO_SHORT))
      else if !b.content.Str? then (s, Err(SERVER_ERROR, FAILED))          // `trim` is not a function
      else if Truthy(b.category) && !b.category.Str? then (s, Err(SERVER_ERROR, FAILED))  // rejected by the create
      else if IndexOf(s.confessions, ids.confessionId).Some? then (s, Err(SERVER_ERROR, FAILED))  // duplicate id
      else Accept(s, b.content.s, CategoryOf(b.category), sessionHeader, scr, ids, now)
  }

  /** Submitting keeps the store valid. */
  lemma PostKeepsValid(s: Store, body: Option<Body>, sessionHeader: Option<string>, scr: Screener, ids: FreshIds, now: int)
    requires Valid(s)
    ensures Valid(Post(s, body, sessionHeader, scr, ids, now).0)
  {
    var r := Post(s, body, sessionHeader, scr, ids, now);
    if r.1.Ok? {
      var row := r.0.confessions[|s.confessions|];
      assert r.0.confessions == s.confessions + [row];
      AppendKeepsValid(s, row, r.0.users);
    }
  }

  /** A submitted confession is hidden from the public read paths exactly when it is profane. */
  lemma HiddenIffProfane(s: Store, body: Option<Body>, sessionHeader: Option<string>, scr: Screener, ids: FreshIds, now: int)
    requires Post(s, body, sessionHeader, scr, ids, now).1.Ok?
    ensures var st := Post(s, body, sessionHeader, scr, ids, now).0;
            |st.confessions| == |s.confessions| + 1
            && (!Visible(st.confessions[|s.confessions|]) <==> scr.isProfane(body.value.content.s))
  {
  }
}
