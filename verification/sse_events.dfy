/**
 * The in-memory event broadcaster of lib/sse-events.ts: a registry from client
 * id to its stream and optional category filter, and a broadcast that frames
 * one server-sent event, sends it to every client whose filter admits it and
 * drops the clients whose stream throws. Whether a stream throws is an oracle:
 * the set of client ids whose stream is closed at the time of the broadcast.
 */
module SseEvents {
  import opened Common

  /** An open stream controller, identified by an opaque handle. */
  type Channel = nat

  datatype Client = Client(id: string, channel: Channel, category: Option<string>)

  type Registry = map<string, Client>

  /** `addClient`: registers `id`, replacing any client already registered under it. */
  function AddClient(reg: Registry, id: string, channel: Channel, category: Option<string>): (r: Registry)
    ensures id in r && r[id] == Client(id, channel, category)
    ensures r.Keys == reg.Keys + {id}
    ensures forall other | other in reg && other != id :: r[other] == reg[other]
    ensures |r| == if id in reg then |reg| else |reg| + 1
  {
    reg[id := Client(id, channel, category)]
  }

  /** `removeClient`: unregisters `id`; an unknown id leaves the registry as it was. */
  function RemoveClient(reg: Registry, id: string): (r: Registry)
    ensures id !in r
    ensures r.Keys == reg.Keys - {id}
    ensures forall other | other in r :: r[other] == reg[other]
    ensures id !in reg ==> r == reg
    ensures |r| == if id in reg then |reg| - 1 else |reg|
  {
    reg - {id}
  }

  /** `getClientCount`. */
  function ClientCount(reg: Registry): (n: nat)
    ensures n == |reg.Keys|
  {
    |reg|
  }

  /** Registering a new id adds one client; registering a known id again keeps the count. */
  lemma CountAfterAdd(reg: Registry, id: string, channel: Channel, category: Option<string>)
    ensures ClientCount(AddClient(reg, id, channel, category)) == ClientCount(reg) + (if id in reg then 0 else 1)
  {
  }

  /** Unregistering a known id removes one client; an unknown id changes nothing. */
  lemma CountAfterRemove(reg: Registry, id: string)
    ensures ClientCount(RemoveClient(reg, id)) == ClientCount(reg) - (if id in reg then 1 else 0)
  {
  }

  /** JavaScript truthiness of an optional string: absent or empty means "no category". */
  predicate Present(o: Option<string>) {
    o.Some? && o.value != ""
  }

  /** `shouldSend`: the broadcast is untagged, or the client listens to everything, or the tags agree. */
  predicate ShouldSend(topic: Option<string>, filter: Option<string>) {
    !Present(topic) || !Present(filter) || filter == topic
  }

  /** The clients a broadcast tagged `topic` is addressed to. */
  function Addressed(reg: Registry, topic: Option<string>): (r: set<string>)
    ensures r <= reg.Keys
    ensures forall id | id in reg :: id in r <==> ShouldSend(topic, reg[id].category)
  {
    set id | id in reg && ShouldSend(topic, reg[id].category)
  }

  /** The server-sent-event frame `event: <name>\ndata: <json>\n\n`. */
  function Frame(event: string, data: string): (m: string)
    ensures |m| == 16 + |event| + |data|
  {
    "event: " + event + "\ndata: " + data + "\n\n"
  }

  /** Index of the first line feed in `s`, if any. */
  function LineEnd(s: string): (r: Option<nat>)
    ensures r.Some? ==> r.value < |s| && s[r.value] == '\n' && '\n' !in s[..r.value]
    ensures r.None? ==> '\n' !in s
  {
    if s == [] then None
    else if s[0] == '\n' then Some(0)
    else match LineEnd(s[1..])
         case None => None
         case Some(k) => assert s[..k + 1] == [s[0]] + s[1..][..k]; Some(k + 1)
  }

  /** Splits a frame made of one `event:` line and one `data:` line back into its fields. */
  function ParseFrame(m: string): (r: Option<(string, string)>)
    ensures r.Some? ==> Frame(r.value.0, r.value.1) == m
  {
    if |m| < 7 || m[..7] != "event: " then None
    else
      var rest := m[7..];
      match LineEnd(rest)
      case None => None
      case Some(k) =>
        var event := rest[..k];
        var tail := rest[k + 1..];
        if |tail| < 8 || tail[..6] != "data: " || tail[|tail| - 2..] != "\n\n" then None
        else
          var data := tail[6..|tail| - 2];
          assert tail == "data: " + data + "\n\n";
          assert rest == event + "\n" + tail;
          assert m == "event: " + rest;
          FrameParts(event, data);
          Some((event, data))
  }

  /** A frame is the `event:` prefix, the name, a line feed, and the `data:` line. */
  lemma FrameParts(event: string, data: string)
    ensures Frame(event, data) == "event: " + (event + "\n" + ("data: " + data + "\n\n"))
  {
    assert "\ndata: " == "\n" + "data: ";
  }

  /**
   * A frame is read back as the event name and data it was built from, provided
   * the name has no line feed; JSON.stringify never emits a raw line feed, so the
   * data of a real frame is a single line, as a `data:` field must be.
   */
  lemma {:induction false} FrameRoundTrip(event: string, data: string)
    requires '\n' !in event && '\n' !in data
    ensures ParseFrame(Frame(event, data)) == Some((event, data))
  {
    var m := Frame(event, data);
    assert m[..7] == "event: ";
    var rest := m[7..];
    var more := "data: " + data + "\n\n";
    assert rest == event + "\n" + more;
    LineEndOfLine(event, more);
    assert LineEnd(rest) == Some(|event|);
    assert rest[..|event|] == event;
    var tail := rest[|event| + 1..];
    assert tail == "data: " + data + "\n\n";
    assert tail[..6] == "data: ";
    assert tail[|tail| - 2..] == "\n\n";
    assert tail[6..|tail| - 2] == data;
  }

  /** The first line feed of `line + "\n" + more` ends `line` when `line` has none. */
  lemma {:induction false} LineEndOfLine(line: string, more: string)
    requires '\n' !in line
    ensures LineEnd(line + "\n" + more) == Some(|line|)
  {
    if line != [] {
      assert (line + "\n" + more)[1..] == line[1..] + "\n" + more;
      LineEndOfLine(line[1..], more);
    }
  }

  datatype Outcome = Outcome(frame: string, delivered: set<string>, registry: Registry, sentCount: nat)

  /**
   * `broadcast(event, data, category)`: every addressed client whose stream is
   * open receives the frame; every addressed client whose stream is closed is
   * removed; clients that were skipped stay registered.
   */
  method Broadcast(reg: Registry, event: string, data: string, topic: Option<string>, closed: set<string>)
    returns (out: Outcome)
    ensures out.frame == Frame(event, data)
    ensures forall id :: id in out.delivered <==> id in reg && ShouldSend(topic, reg[id].category) && id !in closed
    ensures forall id :: id in out.registry <==> id in reg && !(ShouldSend(topic, reg[id].category) && id in closed)
    ensures forall id | id in out.registry :: out.registry[id] == reg[id]
    ensures out.sentCount == |out.delivered| <= |reg|
    // the clients left are those not addressed, or addressed with an open stream
    ensures ClientCount(out.registry) == ClientCount(reg) - |Addressed(reg, topic) * closed|
  {
    var frame := Frame(event, data);
    var todo := reg.Keys;
    var delivered: set<string> := {};
    var current := reg;
    var sent := 0;
    while todo != {}
      invariant todo <= reg.Keys
      invariant forall id :: id in delivered <==>
                  id in reg && id !in todo && ShouldSend(topic, reg[id].category) && id !in closed
      invariant forall id :: id in current <==>
                  id in reg && (id in todo || !(ShouldSend(topic, reg[id].category) && id in closed))
      invariant forall id | id in current :: current[id] == reg[id]
      invariant sent == |delivered|
      invariant delivered <= reg.Keys - todo
      decreases todo
    {
      var id :| id in todo;
      var client := reg[id];
      if ShouldSend(topic, client.category) {
        if id in closed {
          current := RemoveClient(current, id);
        } else {
          delivered := delivered + {id};
          sent := sent + 1;
        }
      }
      todo := todo - {id};
    }
    assert delivered <= reg.Keys;
    SubsetCard(delivered, reg.Keys);
    DroppedCount(reg, current, topic, closed);
    out := Outcome(frame, delivered, current, sent);
  }

  /** A registry that lost exactly the addressed closed clients is that many clients smaller. */
  lemma DroppedCount(reg: Registry, after: Registry, topic: Option<string>, closed: set<string>)
    requires forall id :: id in after <==> id in reg && !(ShouldSend(topic, reg[id].category) && id in closed)
    ensures ClientCount(after) == ClientCount(reg) - |Addressed(reg, topic) * closed|
  {
    var dropped := Addressed(reg, topic) * closed;
    assert after.Keys == reg.Keys - dropped;
    SubsetCard(dropped, reg.Keys);
  }

  lemma SubsetCard<T>(a: set<T>, b: set<T>)
    requires a <= b
    ensures |a| <= |b|
    ensures |b - a| == |b| - |a|
  {
    assert b == a + (b - a);
  }

  /** A client filtered on one category never receives a broadcast tagged with another. */
  lemma FilteredClientSkipsOtherTopics(reg: Registry, id: string, topic: string)
    requires id in reg && Present(reg[id].category) && topic != "" && reg[id].category != Some(topic)
    ensures id !in Addressed(reg, Some(topic))
  {
  }

  /** A client without a filter, and any client for an untagged broadcast, is addressed. */
  lemma UnfilteredClientGetsEverything(reg: Registry, id: string, topic: Option<string>)
    requires id in reg && (!Present(reg[id].category) || !Present(topic))
    ensures id in Addressed(reg, topic)
  {
  }
}
