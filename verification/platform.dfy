/**
 * How the handlers meet: an approval's broadcast handed to the event
 * broadcaster, and the life of a submission from the submit handler through
 * the public feed to approval.
 */
module Platform {
  import opened Common
  import opened Js
  import opened Store
  import SseEvents
  import ApproveRoute
  import ConfessionRoute
  import ConfessionsRoute

  /**
   * `POST /api/admin/approve` followed by the `broadcast` call it makes. The
   * JSON text of the payload (`encode`) and the clients whose stream is closed
   * are parameters.
   */
  method ApproveAndDeliver(s: Store, reg: SseEvents.Registry, body: Option<ApproveRoute.Body>,
                           encode: ApproveRoute.NewConfession -> string, closed: set<string>)
    returns (r: ApproveRoute.Outcome, delivery: Option<SseEvents.Outcome>)
    ensures r == ApproveRoute.Post(s, body)
    ensures delivery.Some? <==> r.reply.Ok?
    ensures delivery.Some? ==>
              var e := r.emitted[0];
              && delivery.value.frame == SseEvents.Frame(ApproveRoute.EVENT, encode(e.payload))
              && (forall id :: id in delivery.value.delivered <==>
                    id in SseEvents.Addressed(reg, e.topic) && id !in closed)
              && delivery.value.registry.Keys == reg.Keys - (SseEvents.Addressed(reg, e.topic) * closed)
  {
    r := ApproveRoute.Post(s, body);
    if r.reply.Ok? {
      var e := r.emitted[0];
      var out := SseEvents.Broadcast(reg, e.event, encode(e.payload), e.topic, closed);
      delivery := Some(out);
    } else {
      delivery := None;
    }
  }

  /** A client filtered on one category never hears of an approval in another. */
  lemma OtherCategoryIsNotDelivered(s: Store, reg: SseEvents.Registry, cid: string, id: string)
    requires cid != "" && IndexOf(s.confessions, cid).Some?
    requires id in reg && SseEvents.Present(reg[id].category)
    requires var c := s.confessions[IndexOf(s.confessions, cid).value];
             SseEvents.Present(CategoryName(c)) && CategoryName(c) != reg[id].category
    ensures var r := ApproveRoute.Post(s, Some(ApproveRoute.Body(Str(cid))));
            id !in SseEvents.Addressed(reg, r.emitted[0].topic)
  {
    var c := s.confessions[IndexOf(s.confessions, cid).value];
    var r := ApproveRoute.Post(s, Some(ApproveRoute.Body(Str(cid))));
    assert r.emitted == [ApproveRoute.Announce(c)];
    SseEvents.FilteredClientSkipsOtherTopics(reg, id, CategoryName(c).value);
  }

  /** A row that is not public never shows in the public feed, not even under another row's entry. */
  lemma HiddenRowIsNotInFeed(st: Store, n: nat, limit: Option<nat>, category: Option<string>, k: nat)
    requires UniqueIds(st.confessions) && n < |st.confessions| && !Visible(st.confessions[n])
    requires k < |ConfessionsRoute.Get(st, limit, category).body|
    ensures ConfessionsRoute.Get(st, limit, category).body[k].id != st.confessions[n].id
  {
    var items := ConfessionsRoute.Get(st, limit, category).body;
    assert ConfessionsRoute.Shows(st, category, items[k]);
    var c :| c in st.confessions && Visible(c) && ConfessionsRoute.InCategory(category, c)
             && items[k] == ConfessionsRoute.ToItem(c);
    var j :| 0 <= j < |st.confessions| && st.confessions[j] == c;
    if j != n {
      assert st.confessions[j].id != st.confessions[n].id;
    }
  }

  /** A profane submission never shows in the public feed. */
  lemma ProfaneSubmissionIsNotInFeed(s: Store, body: Option<ConfessionRoute.Body>, header: Option<string>,
                                     scr: ConfessionRoute.Screener, ids: ConfessionRoute.FreshIds, now: int,
                                     limit: Option<nat>, category: Option<string>, k: nat)
    requires Valid(s)
    requires ConfessionRoute.Post(s, body, header, scr, ids, now).1.Ok?
    requires scr.isProfane(body.value.content.s)
    requires var st := ConfessionRoute.Post(s, body, header, scr, ids, now).0;
             k < |ConfessionsRoute.Get(st, limit, category).body|
    ensures var st := ConfessionRoute.Post(s, body, header, scr, ids, now).0;
            ConfessionsRoute.Get(st, limit, category).body[k].id != ids.confessionId
  {
    var st := ConfessionRoute.Post(s, body, header, scr, ids, now).0;
    ConfessionRoute.PostKeepsValid(s, body, header, scr, ids, now);
    ConfessionRoute.HiddenIffProfane(s, body, header, scr, ids, now);
    var row := SubmittedRow(s, body, header, scr, ids, now);
    HiddenRowIsNotInFeed(st, |s.confessions|, limit, category, k);
  }

  /** What a successful submit leaves in the table: one new live row carrying the fresh id. */
  lemma SubmittedRow(s: Store, body: Option<ConfessionRoute.Body>, header: Option<string>,
                     scr: ConfessionRoute.Screener, ids: ConfessionRoute.FreshIds, now: int)
    returns (row: Confession)
    requires ConfessionRoute.Post(s, body, header, scr, ids, now).1.Ok?
    ensures var st := ConfessionRoute.Post(s, body, header, scr, ids, now).0;
            && st.confessions == s.confessions + [row]
            && row.id == ids.confessionId && !row.isDeleted
            && IndexOf(s.confessions, ids.confessionId).None?
  {
    row := ConfessionRoute.Post(s, body, header, scr, ids, now).0.confessions[|s.confessions|];
  }

  /**
   * Approving the row appended last, by its id, makes it public; with
   * `SubmittedRow` this covers a submission approved right after it was made,
   * profane or not.
   */
  lemma ApproveAppendedRow(s: Store, st: Store, row: Confession)
    requires st.confessions == s.confessions + [row]
    requires IndexOf(s.confessions, row.id).None? && row.id != "" && !row.isDeleted
    ensures var r := ApproveRoute.Post(st, Some(ApproveRoute.Body(Str(row.id))));
            && r.reply.Ok?
            && |r.store.confessions| == |s.confessions| + 1
            && Visible(r.store.confessions[|s.confessions|])
            && r.store.confessions[|s.confessions|].id == row.id
  {
    IndexOfAppend(s.confessions, row, row.id);
    assert IndexOf(st.confessions, row.id) == Some(|s.confessions|);
  }
}
