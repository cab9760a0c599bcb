/** One loop thread with any number of sessions and backend connections, as a state machine
    over the events of its event loop, and who gets which reply. */
module Pairing {
  import opened Bytes
  import opened Fragmentation
  import opened Dispatch
  import opened Exchange

  /** A client session. `pieces`, `framed` and `placed` are history: the pieces in which its bytes
      came, its requests as the framer cut them, and the connection each went to, if any. */
  datatype Session = Session(closing: bool, ids: nat, input: Text, delivered: seq<Text>,
                             pieces: seq<Text>, framed: seq<Text>, placed: seq<Option<nat>>)

  /** A backend connection and its backend: what the backend has sent so far, text by text, and
      the bytes of it that are still under way; the pieces in which the others came, and the
      texts that the proxy has handed on. */
  datatype Link = Link(conn: Conn<nat>, replies: seq<Text>, wire: Text, pieces: seq<Text>, handed: seq<Text>)

  /** What became of a text that was handed to a session: written to the client, refused by
      the bufferevent, or dropped because the session was closing. */
  datatype Outcome = Sent | Refused | Dropped

  datatype Given = Given(link: nat, who: nat, reply: Text, outcome: Outcome)

  /** `given` is the log of all texts handed to sessions. `crashed` stands for taking the front
      of an empty queue. */
  datatype System = System(sessions: map<nat, Session>, links: seq<Link>, given: seq<Given>, crashed: bool)

  datatype Event =
    | Accept(sid: nat, firstId: nat)                             // the listener makes a session
    | AddConn(alive: bool)                                       // a connection joins the vector
    | Connected(link: nat)                                       // BEV_EVENT_CONNECTED, not refused
    | Lost(link: nat)                                            // EOF, error or timeout
    | Request(sid: nat, chunk: Text, accept: (nat, nat) -> bool) // client bytes arrive, onRead
    | Answer(link: nat, reply: Text)                             // the backend sends something
    | Reply(link: nat, count: nat, takes: nat -> bool)           // so many of its bytes arrive, onRead
    | Close(sid: nat)                                            // an event on the client's bufferevent

  const INIT: System := System(map[], [], [], false)

  /** What the environment can do. A backend may send anything at any time. */
  ghost predicate Enabled(s: System, e: Event) {
    && !s.crashed
    && match e
       case Accept(sid, firstId) => sid !in s.sessions && firstId < U32
       case AddConn(_) => true
       case Connected(i) => i < |s.links| && s.links[i].conn.alive
       case Lost(i) => i < |s.links| && s.links[i].conn.alive
       case Request(sid, _, _) => sid in s.sessions
       case Answer(i, _) => i < |s.links| && s.links[i].conn.alive
       case Reply(i, count, _) => i < |s.links| && s.links[i].conn.alive && count <= |s.links[i].wire|
       case Close(sid) => sid in s.sessions
  }

  function Conns(links: seq<Link>): (cs: seq<Conn<nat>>)
    ensures |cs| == |links|
  {
    seq(|links|, i requires 0 <= i < |links| => links[i].conn)
  }

  function WithConns(links: seq<Link>, cs: seq<Conn<nat>>): (ls: seq<Link>)
    requires |cs| == |links|
    ensures |ls| == |links|
  {
    seq(|links|, i requires 0 <= i < |links| => links[i].(conn := cs[i]))
  }

  /** One framed request of a session. */
  function PlaceOne(s: System, sid: nat, segment: Text, accept: nat -> bool): (s': System)
    requires sid in s.sessions
    ensures s'.sessions.Keys == s.sessions.Keys && |s'.links| == |s.links|
  {
    var me := s.sessions[sid];
    var p := Place(Conns(s.links), me.ids, sid, segment, accept);
    var me' := me.(ids := p.ids, framed := me.framed + [segment], placed := me.placed + [p.slot]);
    s.(sessions := s.sessions[sid := me'],
       links := WithConns(s.links, p.conns))
  }

  function PlaceAll(s: System, sid: nat, segments: seq<Text>, accept: (nat, nat) -> bool, j: nat): (s': System)
    requires sid in s.sessions && j <= |segments|
    ensures s'.sessions.Keys == s.sessions.Keys && |s'.links| == |s.links|
    decreases |segments| - j
  {
    if j == |segments| then s
    else PlaceAll(PlaceOne(s, sid, segments[j], Row(accept, j)), sid, segments, accept, j + 1)
  }

  function Texts(sessions: map<nat, Session>): (m: map<nat, seq<Text>>)
    ensures m.Keys == sessions.Keys
  {
    map sid | sid in sessions :: sessions[sid].delivered
  }

  function Open(sessions: map<nat, Session>): set<nat> {
    set sid | sid in sessions && !sessions[sid].closing
  }

  /** The first `n` replies for the sessions at the front of a queue. */
  function Deliver(sessions: map<nat, Session>, queue: seq<nat>, replies: seq<Text>, accept: nat -> bool, n: nat)
    : map<nat, Session>
    requires n <= |replies| && n <= |queue|
  {
    GivenToOwners(Texts(sessions), Open(sessions), queue, replies, accept, n);
    var texts := GiveAll(Texts(sessions), Open(sessions), queue, replies, accept, n);
    map sid | sid in sessions :: sessions[sid].(delivered := texts[sid])
  }

  function OutcomeOf(sessions: map<nat, Session>, who: nat, ok: bool): Outcome {
    if who !in sessions || sessions[who].closing then Dropped else if ok then Sent else Refused
  }

  /** The log entries for them. */
  function Entries(sessions: map<nat, Session>, i: nat, queue: seq<nat>, replies: seq<Text>,
                   accept: nat -> bool, n: nat): (g: seq<Given>)
    requires n <= |replies| && n <= |queue|
    ensures |g| == n
    ensures forall k :: 0 <= k < n ==> g[k] == Given(i, queue[k], replies[k], OutcomeOf(sessions, queue[k], accept(k)))
  {
    if n == 0 then []
    else Entries(sessions, i, queue, replies, accept, n - 1)
         + [Given(i, queue[n - 1], replies[n - 1], OutcomeOf(sessions, queue[n - 1], accept(n - 1)))]
  }

  function OnReply(s: System, i: nat, count: nat, accept: nat -> bool): System
    requires i < |s.links| && count <= |s.links[i].wire|
  {
    var l, chunk := s.links[i], s.links[i].wire[..count];
    var c := l.conn;
    var f := Read(c.input + chunk);
    var k := |f.segments|;
    if k > |c.fifo| then s.(crashed := true)
    else System(Deliver(s.sessions, c.fifo, f.segments, accept, k),
                s.links[i := Link(c.(input := f.rest, fifo := c.fifo[k..]), l.replies, l.wire[count..],
                                  l.pieces + [chunk], l.handed + f.segments)],
                s.given + Entries(s.sessions, i, c.fifo, f.segments, accept, k), false)
  }

  ghost function Apply(s: System, e: Event): System
    requires Enabled(s, e)
  {
    match e
    case Accept(sid, firstId) => s.(sessions := s.sessions[sid := Session(false, firstId, [], [], [], [], [])])
    case AddConn(alive) => s.(links := s.links + [NewLink(alive)])
    case Connected(i) => s.(links := s.links[i := s.links[i].(conn := s.links[i].conn.(connected := true))])
    case Lost(i) => s.(links := s.links[i := s.links[i].(conn := s.links[i].conn.(connected := false, alive := false))])
    case Request(sid, chunk, accept) =>
      var me := s.sessions[sid];
      var f := Read(me.input + chunk);
      var fed := s.(sessions := s.sessions[sid := me.(input := f.rest, pieces := me.pieces + [chunk])]);
      PlaceAll(fed, sid, f.segments, accept, 0)
    case Answer(i, reply) =>
      var l := s.links[i];
      s.(links := s.links[i := l.(replies := l.replies + [reply], wire := l.wire + reply)])
    case Reply(i, count, takes) => OnReply(s, i, count, takes)
    case Close(sid) => s.(sessions := s.sessions[sid := s.sessions[sid].(closing := true)])
  }

  function NewLink(alive: bool): Link {
    Link(Conn(false, alive, [], [], [], []), [], [], [], [])
  }

  /** `s` comes about by these events. */
  ghost predicate Run(events: seq<Event>, s: System)
    decreases |events|
  {
    if events == [] then s == INIT
    else
      var before, last := events[..|events| - 1], events[|events| - 1];
      exists p :: Run(before, p) && Enabled(p, last) && s == Apply(p, last)
  }

  ghost predicate Reachable(s: System) {
    exists events :: Run(events, s)
  }

  // ---- The invariant ----

  /** The queue holds the owners of the requests for which nothing has been handed on yet, in the
      order of sending. What has been handed on and what is in the buffer is what the framer
      makes of the pieces. */
  predicate LinkInv(l: Link) {
    var c := l.conn;
    && |c.owners| == |c.written|
    && |l.handed| <= |c.owners|
    && c.fifo == c.owners[|l.handed|..]
    && Feed(l.handed, c.input) == FeedAll([], l.pieces)
    && Concat(l.replies) == Concat(l.pieces) + l.wire
    && (c.connected ==> c.alive)
  }

  predicate LinksInv(links: seq<Link>) {
    forall i :: 0 <= i < |links| ==> LinkInv(links[i])
  }

  datatype Handing = Handing(who: nat, text: Text)

  /** What the log says of one link, of one session, and of what that session was sent. */
  function OverLink(given: seq<Given>, i: nat): seq<Handing> {
    if given == [] then []
    else
      var g := given[|given| - 1];
      OverLink(given[..|given| - 1], i) + if g.link == i then [Handing(g.who, g.reply)] else []
  }

  function ForSession(given: seq<Given>, sid: nat): seq<Text> {
    if given == [] then []
    else
      var g := given[|given| - 1];
      ForSession(given[..|given| - 1], sid) + if g.who == sid then [g.reply] else []
  }

  function SentTo(given: seq<Given>, sid: nat): seq<Text> {
    if given == [] then []
    else
      var g := given[|given| - 1];
      SentTo(given[..|given| - 1], sid) + if g.who == sid && g.outcome == Sent then [g.reply] else []
  }

  /** Text `k` for the session at place `k`. */
  function Paired(owners: seq<nat>, texts: seq<Text>): (h: seq<Handing>)
    requires |texts| <= |owners|
    ensures |h| == |texts| && forall k :: 0 <= k < |h| ==> h[k] == Handing(owners[k], texts[k])
  {
    seq(|texts|, k requires 0 <= k < |texts| => Handing(owners[k], texts[k]))
  }

  /** The `k`-th text handed on over a link went to the owner of its `k`-th request. */
  ghost predicate GivenInv(links: seq<Link>, given: seq<Given>)
    requires LinksInv(links)
  {
    forall i: nat :: OverLink(given, i) == if i < |links| then LinkLog(links[i]) else []
  }

  function LinkLog(l: Link): seq<Handing>
    requires LinkInv(l)
  {
    Paired(l.conn.owners, l.handed)
  }

  ghost predicate SessionsInv(sessions: map<nat, Session>, given: seq<Given>) {
    forall sid :: sid in sessions ==> SentInv(sessions[sid], SentTo(given, sid))
  }

  predicate SentInv(me: Session, sent: seq<Text>) {
    me.ids < U32 && me.delivered == sent
  }

  /** Only closing sessions miss a text that the bufferevent would take, and from then on all. */
  ghost predicate DroppedInv(sessions: map<nat, Session>, given: seq<Given>) {
    && (forall k :: 0 <= k < |given| && given[k].outcome == Dropped ==>
          given[k].who in sessions && sessions[given[k].who].closing)
    && (forall j, k :: 0 <= j < k < |given| && given[j].who == given[k].who && given[j].outcome == Dropped ==>
          given[k].outcome == Dropped)
  }

  /** Each link was sent the session's requests that were placed there, in their order. */
  predicate PlacedInv(me: Session, sid: nat, links: seq<Link>) {
    && |me.placed| == |me.framed|
    && (forall k :: 0 <= k < |me.placed| && me.placed[k].Some? ==> me.placed[k].value < |links|)
    && forall i :: 0 <= i < |links| && |links[i].conn.owners| == |links[i].conn.written| ==>
         PickFor(links[i].conn.owners, links[i].conn.written, sid) == PickFor(me.placed, me.framed, Some(i))
  }

  ghost predicate RequestsInv(sessions: map<nat, Session>, links: seq<Link>) {
    forall sid :: sid in sessions ==> PlacedInv(sessions[sid], sid, links)
  }

  /** Everyone in a queue or in the log is a session. */
  ghost predicate KnownInv(s: System) {
    && (forall i, k :: 0 <= i < |s.links| && 0 <= k < |s.links[i].conn.owners| ==>
          s.links[i].conn.owners[k] in s.sessions)
    && (forall k :: 0 <= k < |s.given| ==> s.given[k].who in s.sessions)
  }

  ghost predicate CoreInv(s: System) {
    && LinksInv(s.links) && GivenInv(s.links, s.given)
    && SessionsInv(s.sessions, s.given) && DroppedInv(s.sessions, s.given)
    && RequestsInv(s.sessions, s.links) && KnownInv(s)
  }

  /** A client's requests are what the framer makes of the pieces. */
  predicate BytesInv(me: Session) {
    Feed(me.framed, me.input) == FeedAll([], me.pieces)
  }

  /** One more piece on this link has more texts than there are requests. */
  predicate Overruns(l: Link, count: nat) {
    count <= |l.wire| && |FeedAll([], l.pieces + [l.wire[..count]]).segments| > |l.conn.written|
  }

  ghost predicate CrashInv(s: System) {
    s.crashed ==> exists i, count :: 0 <= i < |s.links| && s.links[i].conn.alive && Overruns(s.links[i], count)
  }

  ghost predicate Inv(s: System) {
    CrashInv(s) && CoreInv(s) && forall sid :: sid in s.sessions ==> BytesInv(s.sessions[sid])
  }

  // ---- Requests ----

  lemma HandKeepsLink(l: Link, sid: nat, segment: Text)
    requires LinkInv(l)
    ensures var l' := l.(conn := Hand(l.conn, sid, segment));
            LinkInv(l') && LinkLog(l') == LinkLog(l)
  {
    hide FeedAll, Concat;
    var l' := l.(conn := Hand(l.conn, sid, segment));
    assert l'.conn.owners[|l.handed|..] == l.conn.owners[|l.handed|..] + [sid];
  }

  /** What one placement changes. */
  lemma PlaceOneExactly(s: System, sid: nat, segment: Text, accept: nat -> bool)
    requires sid in s.sessions
    ensures var me, s' := s.sessions[sid], PlaceOne(s, sid, segment, accept);
            var p := Place(Conns(s.links), me.ids, sid, segment, accept);
            && s'.sessions
               == s.sessions[sid := me.(ids := p.ids, framed := me.framed + [segment], placed := me.placed + [p.slot])]
            && s'.given == s.given && s'.crashed == s.crashed
            && (p.slot == None ==> s'.links == s.links)
            && (p.slot.Some? ==>
                  p.slot.value < |s.links|
                  && var l := s.links[p.slot.value];
                     s'.links == s.links[p.slot.value := l.(conn := Hand(l.conn, sid, segment))])
            && (me.ids < U32 ==> p.ids < U32)
  {
    hide Search, Slot, IdAt;
  }

  /** Sessions come, and close for good. */
  lemma DroppedStays(sessions: map<nat, Session>, after: map<nat, Session>, given: seq<Given>)
    requires DroppedInv(sessions, given)
    requires forall q :: q in sessions ==> q in after && (sessions[q].closing ==> after[q].closing)
    ensures DroppedInv(after, given)
  {
  }

  lemma OwnersAreWritten(links: seq<Link>)
    requires LinksInv(links)
    ensures forall i :: 0 <= i < |links| ==> |links[i].conn.owners| == |links[i].conn.written|
  {
    hide FeedAll, Concat;
  }

  lemma HandKeepsLinks(links: seq<Link>, given: seq<Given>, i: nat, sid: nat, segment: Text)
    requires LinksInv(links) && GivenInv(links, given) && i < |links|
    ensures var links' := links[i := links[i].(conn := Hand(links[i].conn, sid, segment))];
            LinksInv(links') && GivenInv(links', given)
  {
    hide LinkInv, LinkLog, OverLink;
    HandKeepsLink(links[i], sid, segment);
  }

  lemma PlaceOneKeeps(s: System, sid: nat, segment: Text, accept: nat -> bool)
    requires CoreInv(s) && sid in s.sessions
    ensures CoreInv(PlaceOne(s, sid, segment, accept))
  {
    hide PlaceOne, Place, LinksInv, GivenInv, SentTo, PlacedInv, DroppedInv;
    var me, s' := s.sessions[sid], PlaceOne(s, sid, segment, accept);
    PlaceOneExactly(s, sid, segment, accept);
    DroppedStays(s.sessions, s'.sessions, s.given);
    OwnersAreWritten(s.links);
    var slot := Place(Conns(s.links), me.ids, sid, segment, accept).slot;
    if slot.Some? {
      HandKeepsLinks(s.links, s.given, slot.value, sid, segment);
    }
    forall q | q in s'.sessions ensures PlacedInv(s'.sessions[q], q, s'.links) {
      PlaceKeepsPlaced(s.sessions[q], s'.sessions[q], q, s.links, s'.links, sid, segment, slot);
    }
  }

  lemma PlaceKeepsPlaced(you: Session, you': Session, q: nat, links: seq<Link>, links': seq<Link>,
                         sid: nat, segment: Text, slot: Option<nat>)
    requires PlacedInv(you, q, links) && (slot.Some? ==> slot.value < |links|)
    requires forall i :: 0 <= i < |links| ==> |links[i].conn.owners| == |links[i].conn.written|
    requires you'.framed == you.framed + if q == sid then [segment] else []
    requires you'.placed == you.placed + if q == sid then [slot] else []
    requires links' == if slot == None then links
                       else links[slot.value := links[slot.value].(conn := Hand(links[slot.value].conn, sid, segment))]
    ensures PlacedInv(you', q, links')
  {
    hide PickFor;
    forall i | 0 <= i < |links|
      ensures PickFor(links'[i].conn.owners, links'[i].conn.written, q) == PickFor(you'.placed, you'.framed, Some(i))
    {
      var c := links[i].conn;
      PickForOne(c.owners, c.written, sid, segment, q);
      PickForOne(you.placed, you.framed, slot, segment, Some(i));
      assert you.placed + [] == you.placed && you.framed + [] == you.framed;
    }
  }

  /** What the placing of all requests of one read leaves alone, and what it adds. */
  lemma {:induction false} PlaceAllKeeps(s: System, sid: nat, segments: seq<Text>, accept: (nat, nat) -> bool, j: nat)
    requires CoreInv(s) && sid in s.sessions && j <= |segments|
    ensures var s' := PlaceAll(s, sid, segments, accept, j);
            && CoreInv(s') && s'.sessions.Keys == s.sessions.Keys && s'.given == s.given && s'.crashed == s.crashed
            && s'.sessions[sid].framed == s.sessions[sid].framed + segments[j..]
            && s'.sessions[sid].input == s.sessions[sid].input && s'.sessions[sid].pieces == s.sessions[sid].pieces
            && forall q :: q in s.sessions && q != sid ==> s'.sessions[q] == s.sessions[q]
    decreases |segments| - j
  {
    hide CoreInv, PlaceOne, Place, Hand;
    if j < |segments| {
      var m := PlaceOne(s, sid, segments[j], Row(accept, j));
      PlaceOneKeeps(s, sid, segments[j], Row(accept, j));
      PlaceOneExactly(s, sid, segments[j], Row(accept, j));
      PlaceAllKeeps(m, sid, segments, accept, j + 1);
      assert segments[j..] == [segments[j]] + segments[j + 1..];
    } else {
      assert segments[j..] == [];
    }
  }

  lemma FedKeepsCore(s: System, sid: nat, input: Text, pieces: seq<Text>)
    requires CoreInv(s) && sid in s.sessions
    ensures CoreInv(s.(sessions := s.sessions[sid := s.sessions[sid].(input := input, pieces := pieces)]))
  {
    hide LinksInv, GivenInv, PickFor, SentTo, DroppedInv;
    var after := s.sessions[sid := s.sessions[sid].(input := input, pieces := pieces)];
    DroppedStays(s.sessions, after, s.given);
    assert forall q :: q in s.sessions ==>
             SentInv(s.sessions[q], SentTo(s.given, q)) && PlacedInv(s.sessions[q], q, s.links);
  }

  lemma RequestKeeps(s: System, e: Event)
    requires Inv(s) && e.Request? && Enabled(s, e)
    ensures Inv(Apply(s, e))
  {
    hide Read, CoreInv, PlaceAll, FeedAll;
    var sid := e.sid;
    var me := s.sessions[sid];
    var f := Read(me.input + e.chunk);
    var fed := s.(sessions := s.sessions[sid := me.(input := f.rest, pieces := me.pieces + [e.chunk])]);
    FedKeepsCore(s, sid, f.rest, me.pieces + [e.chunk]);
    PlaceAllKeeps(fed, sid, f.segments, accept := e.accept, j := 0);
    FeedAppend([], me.pieces, e.chunk);
    assert f.segments[0..] == f.segments;
    assert BytesInv(me);
    assert forall q :: q in s.sessions ==> BytesInv(s.sessions[q]);
  }

  // ---- Replies ----

  lemma OverLinkOne(given: seq<Given>, g: Given, j: nat)
    ensures OverLink(given + [g], j) == OverLink(given, j) + if g.link == j then [Handing(g.who, g.reply)] else []
  {
    assert (given + [g])[..|given|] == given;
  }

  lemma SentToOne(given: seq<Given>, g: Given, sid: nat)
    ensures SentTo(given + [g], sid) == SentTo(given, sid) + if g.who == sid && g.outcome == Sent then [g.reply] else []
  {
    assert (given + [g])[..|given|] == given;
  }

  lemma PairedLast(owners: seq<nat>, texts: seq<Text>, n: nat)
    requires 0 < n <= |texts| && n <= |owners|
    ensures Paired(owners, texts[..n]) == Paired(owners, texts[..n - 1]) + [Handing(owners[n - 1], texts[n - 1])]
  {
  }

  lemma {:induction false} OverLinkAppend(given: seq<Given>, sessions: map<nat, Session>, i: nat, queue: seq<nat>,
                                          replies: seq<Text>, accept: nat -> bool, n: nat, j: nat)
    requires n <= |replies| && n <= |queue|
    ensures OverLink(given + Entries(sessions, i, queue, replies, accept, n), j)
            == OverLink(given, j) + if i == j then Paired(queue, replies[..n]) else []
  {
    var entries := Entries(sessions, i, queue, replies, accept, n);
    if n == 0 {
      assert given + entries == given;
    } else {
      var less := Entries(sessions, i, queue, replies, accept, n - 1);
      var last := Given(i, queue[n - 1], replies[n - 1], OutcomeOf(sessions, queue[n - 1], accept(n - 1)));
      assert entries == less + [last];
      hide OverLink, Entries, OutcomeOf;
      OverLinkAppend(given, sessions, i, queue, replies, accept, n - 1, j);
      PairedLast(queue, replies, n);
      PlusAssociates(given, less, [last]);
      OverLinkOne(given + less, last, j);
      PlusAssociates(OverLink(given, j), Paired(queue, replies[..n - 1]), [Handing(last.who, last.reply)]);
    }
  }

  lemma {:induction false} SentToAppend(given: seq<Given>, sessions: map<nat, Session>, i: nat, queue: seq<nat>,
                                        replies: seq<Text>, accept: nat -> bool, n: nat, sid: nat)
    requires n <= |replies| && n <= |queue| && sid in sessions
    ensures SentTo(given + Entries(sessions, i, queue, replies, accept, n), sid)
            == SentTo(given, sid) + if sessions[sid].closing then [] else PickTaken(queue, replies, accept, sid, n)
  {
    var entries := Entries(sessions, i, queue, replies, accept, n);
    if n == 0 {
      assert given + entries == given;
    } else {
      var less := Entries(sessions, i, queue, replies, accept, n - 1);
      var last := Given(i, queue[n - 1], replies[n - 1], OutcomeOf(sessions, queue[n - 1], accept(n - 1)));
      var here := if last.who == sid && last.outcome == Sent then [last.reply] else [];
      var taken := if sessions[sid].closing then [] else PickTaken(queue, replies, accept, sid, n - 1);
      assert taken + here == if sessions[sid].closing then [] else PickTaken(queue, replies, accept, sid, n);
      calc {
        SentTo(given + entries, sid);
        { assert entries == less + [last]; PlusAssociates(given, less, [last]); }
        SentTo(given + less + [last], sid);
        { SentToOne(given + less, last, sid); }
        SentTo(given + less, sid) + here;
        { SentToAppend(given, sessions, i, queue, replies, accept, n - 1, sid); }
        SentTo(given, sid) + taken + here;
        { PlusAssociates(SentTo(given, sid), taken, here); }
        SentTo(given, sid) + (taken + here);
      }
    }
  }

  lemma ReplyKeepsLink(l: Link, count: nat)
    requires LinkInv(l) && l.conn.alive && count <= |l.wire|
    ensures var c, chunk := l.conn, l.wire[..count];
            var f := Read(c.input + chunk);
            var k := |f.segments|;
            && (k > |c.fifo| <==> Overruns(l, count))
            && (k <= |c.fifo| ==>
                  var l' := Link(c.(input := f.rest, fifo := c.fifo[k..]), l.replies, l.wire[count..],
                                 l.pieces + [chunk], l.handed + f.segments);
                  LinkInv(l') && LinkLog(l') == LinkLog(l) + Paired(c.fifo, f.segments))
  {
    hide Read, FeedAll;
    var chunk, x := l.wire[..count], l.wire[count..];
    FeedAppend([], l.pieces, chunk);
    ConcatAppend(l.pieces, [chunk]);
    ConcatOne(chunk);
    hide Concat;
    assert l.wire == chunk + x;
    PlusAssociates(Concat(l.pieces), chunk, x);
  }

  lemma DeliverExactly(sessions: map<nat, Session>, queue: seq<nat>, replies: seq<Text>, accept: nat -> bool, n: nat)
    requires n <= |replies| && n <= |queue|
    ensures var after := Deliver(sessions, queue, replies, accept, n);
            && after.Keys == sessions.Keys
            && forall q :: q in sessions ==>
                 var me := sessions[q];
                 after[q] == me.(delivered := me.delivered
                                              + if me.closing then [] else PickTaken(queue, replies, accept, q, n))
  {
    hide GiveAll, PickTaken;
    GivenToOwners(Texts(sessions), Open(sessions), queue, replies, accept, n);
  }

  lemma EntriesKeepDropped(s: System, after: map<nat, Session>, i: nat, queue: seq<nat>, replies: seq<Text>,
                           accept: nat -> bool, n: nat)
    requires n <= |replies| && n <= |queue| && DroppedInv(s.sessions, s.given)
    requires forall k :: 0 <= k < n ==> queue[k] in s.sessions
    requires after.Keys == s.sessions.Keys && forall q :: q in after ==> after[q].closing == s.sessions[q].closing
    ensures DroppedInv(after, s.given + Entries(s.sessions, i, queue, replies, accept, n))
  {
    hide Entries;
  }

  lemma ReplyKeeps(s: System, e: Event)
    requires Inv(s) && e.Reply? && Enabled(s, e)
    ensures Inv(Apply(s, e))
  {
    hide Read, LinkInv, LinkLog, PickFor, PickTaken, OverLink, SentTo, Deliver, PlacedInv, Entries, Overruns, Paired;
    var i, l := e.link, s.links[e.link];
    var c := l.conn;
    var f := Read(c.input + l.wire[..e.count]);
    var k := |f.segments|;
    ReplyKeepsLink(l, e.count);
    if k <= |c.fifo| {
      HandingKeeps(s, i, e.count, e.takes);
    } else {
      hide CoreInv;
      assert Overruns(s.links[i], e.count);
    }
  }

  lemma HandingKeeps(s: System, i: nat, count: nat, accept: nat -> bool)
    requires Inv(s) && !s.crashed && i < |s.links| && s.links[i].conn.alive && count <= |s.links[i].wire|
    requires |Read(s.links[i].conn.input + s.links[i].wire[..count]).segments| <= |s.links[i].conn.fifo|
    ensures Inv(OnReply(s, i, count, accept))
  {
    hide Read, LinkInv, LinkLog, PickFor, PickTaken, OverLink, SentTo, Deliver, PlacedInv, Entries, Overruns,
         DroppedInv, Paired, FeedAll;
    var l := s.links[i];
    var c := l.conn;
    var f := Read(c.input + l.wire[..count]);
    var n := |f.segments|;
    ReplyKeepsLink(l, count);
    DeliverExactly(s.sessions, c.fifo, f.segments, accept, n);
    FifoKnown(s, i);
    var s' := OnReply(s, i, count, accept);
    EntriesKeepDropped(s, s'.sessions, i, c.fifo, f.segments, accept, n);
    forall q | q in s.sessions
      ensures SentInv(s'.sessions[q], SentTo(s'.given, q))
      ensures BytesInv(s'.sessions[q]) && PlacedInv(s'.sessions[q], q, s'.links)
    {
      SentToAppend(s.given, s.sessions, i, c.fifo, f.segments, accept, n, q);
      assert SentInv(s.sessions[q], SentTo(s.given, q)) && BytesInv(s.sessions[q]);
      PlacedElsewhere(s.sessions[q], s'.sessions[q], q, s.links, s'.links);
    }
    assert f.segments[..n] == f.segments;
    forall j: nat ensures OverLink(s'.given, j) == if j < |s'.links| then LinkLog(s'.links[j]) else [] {
      OverLinkAppend(s.given, s.sessions, i, c.fifo, f.segments, accept, n, j);
    }
  }

  lemma FifoKnown(s: System, i: nat)
    requires i < |s.links| && LinkInv(s.links[i]) && KnownInv(s)
    ensures forall k :: 0 <= k < |s.links[i].conn.fifo| ==> s.links[i].conn.fifo[k] in s.sessions
  {
    hide FeedAll, Concat;
  }

  lemma PlacedElsewhere(me: Session, me': Session, sid: nat, links: seq<Link>, links': seq<Link>)
    requires PlacedInv(me, sid, links) && me'.placed == me.placed && me'.framed == me.framed
    requires |links'| == |links|
    requires forall i :: 0 <= i < |links| ==>
               links'[i].conn.owners == links[i].conn.owners && links'[i].conn.written == links[i].conn.written
    ensures PlacedInv(me', sid, links')
  {
    hide PickFor;
  }

  // ---- The other events ----

  lemma AnswerKeepsLink(l: Link, reply: Text)
    requires LinkInv(l)
    ensures var l' := l.(replies := l.replies + [reply], wire := l.wire + reply);
            LinkInv(l') && LinkLog(l') == LinkLog(l)
  {
    hide FeedAll;
    ConcatAppend(l.replies, [reply]);
    ConcatOne(reply);
    hide Concat;
    PlusAssociates(Concat(l.pieces), l.wire, reply);
  }

  /** An event of one link that changes nothing of its history. */
  lemma LinkEventKeeps(s: System, i: nat, l': Link)
    requires Inv(s) && !s.crashed && i < |s.links| && LinkInv(l') && LinkLog(l') == LinkLog(s.links[i])
    requires l'.conn.owners == s.links[i].conn.owners && l'.conn.written == s.links[i].conn.written
    ensures Inv(s.(links := s.links[i := l']))
  {
    hide LinkInv, LinkLog, PickFor, OverLink, SessionsInv, PlacedInv, DroppedInv;
    var s' := s.(links := s.links[i := l']);
    forall q | q in s.sessions ensures PlacedInv(s'.sessions[q], q, s'.links) {
      PlacedElsewhere(s.sessions[q], s.sessions[q], q, s.links, s'.links);
    }
  }

  lemma {:induction false} StrangersHaveNothing(given: seq<Given>, sid: nat)
    requires forall k :: 0 <= k < |given| ==> given[k].who != sid
    ensures SentTo(given, sid) == []
  {
    if given != [] {
      StrangersHaveNothing(given[..|given| - 1], sid);
    }
  }

  lemma {:induction false} StrangersPickNothing(places: seq<nat>, texts: seq<Text>, sid: nat)
    requires forall k :: 0 <= k < |places| ==> places[k] != sid
    ensures PickFor(places, texts, sid) == []
  {
    if places != [] && texts != [] {
      StrangersPickNothing(places[1..], texts[1..], sid);
    }
  }

  lemma {:induction false} NothingPlaced(placed: seq<Option<nat>>, texts: seq<Text>, i: nat)
    requires forall k :: 0 <= k < |placed| && placed[k].Some? ==> placed[k].value < i
    ensures PickFor(placed, texts, Some(i)) == []
  {
    if placed != [] && texts != [] {
      NothingPlaced(placed[1..], texts[1..], i);
    }
  }

  lemma AcceptKeeps(s: System, e: Event)
    requires Inv(s) && e.Accept? && Enabled(s, e)
    ensures Inv(Apply(s, e))
  {
    hide LinksInv, GivenInv, PickFor, SentTo, DroppedInv;
    var s', sid := Apply(s, e), e.sid;
    DroppedStays(s.sessions, s'.sessions, s.given);
    StrangersHaveNothing(s.given, sid);
    forall i | 0 <= i < |s.links|
      ensures PickFor(s.links[i].conn.owners, s.links[i].conn.written, sid) == PickFor<Option<nat>>([], [], Some(i))
    {
      StrangersPickNothing(s.links[i].conn.owners, s.links[i].conn.written, sid);
      NothingPlaced([], [], i);
    }
    forall q | q in s'.sessions ensures PlacedInv(s'.sessions[q], q, s'.links) && BytesInv(s'.sessions[q]) {
    }
  }

  lemma AddConnKeepsPlaced(me: Session, q: nat, links: seq<Link>, alive: bool)
    requires PlacedInv(me, q, links)
    ensures PlacedInv(me, q, links + [NewLink(alive)])
  {
    hide PickFor;
    NothingPlaced(me.placed, me.framed, |links|);
    StrangersPickNothing([], [], q);
  }

  lemma AddConnKeeps(s: System, e: Event)
    requires Inv(s) && e.AddConn? && Enabled(s, e)
    ensures Inv(Apply(s, e))
  {
    hide LinkInv, LinkLog, PickFor, OverLink, SessionsInv, DroppedInv, PlacedInv;
    var s' := Apply(s, e);
    NewLinkFits(e.alive);
    forall q | q in s.sessions ensures PlacedInv(s'.sessions[q], q, s'.links) && BytesInv(s'.sessions[q]) {
      AddConnKeepsPlaced(s.sessions[q], q, s.links, e.alive);
    }
    hide BytesInv;
  }

  lemma NewLinkFits(alive: bool)
    ensures LinkInv(NewLink(alive)) && LinkLog(NewLink(alive)) == []
  {
    assert Concat<Byte>([]) + [] == [];
  }

  lemma CloseKeeps(s: System, e: Event)
    requires Inv(s) && e.Close? && Enabled(s, e)
    ensures Inv(Apply(s, e))
  {
    hide LinksInv, GivenInv, PickFor, SentTo, PlacedInv, DroppedInv, FeedAll;
    var s' := Apply(s, e);
    DroppedStays(s.sessions, s'.sessions, s.given);
    forall q | q in s'.sessions ensures PlacedInv(s'.sessions[q], q, s'.links) && BytesInv(s'.sessions[q]) {
      PlacedElsewhere(s.sessions[q], s'.sessions[q], q, s.links, s'.links);
      assert BytesInv(s.sessions[q]);
    }
  }

  /** Every event keeps the invariant. */
  lemma EventKeeps(s: System, e: Event)
    requires Inv(s) && Enabled(s, e)
    ensures Inv(Apply(s, e))
  {
    hide Inv, LinkInv, LinkLog, OnReply, PlaceAll, Read;
    match e
    case Accept(_, _) => AcceptKeeps(s, e);
    case AddConn(_) => AddConnKeeps(s, e);
    case Request(_, _, _) => RequestKeeps(s, e);
    case Reply(_, _, _) => ReplyKeeps(s, e);
    case Close(_) => CloseKeeps(s, e);
    case Answer(i, reply) =>
      LinkOf(s, i);
      AnswerKeepsLink(s.links[i], reply);
      LinkEventKeeps(s, i, s.links[i].(replies := s.links[i].replies + [reply], wire := s.links[i].wire + reply));
    case Connected(i) =>
      LinkOf(s, i);
      FlagsKeepLink(s.links[i], true, true);
      LinkEventKeeps(s, i, s.links[i].(conn := s.links[i].conn.(connected := true)));
    case Lost(i) =>
      LinkOf(s, i);
      FlagsKeepLink(s.links[i], false, false);
      LinkEventKeeps(s, i, s.links[i].(conn := s.links[i].conn.(connected := false, alive := false)));
  }

  lemma LinkOf(s: System, i: nat)
    requires Inv(s) && i < |s.links|
    ensures LinkInv(s.links[i])
  {
  }

  lemma FlagsKeepLink(l: Link, connected: bool, alive: bool)
    requires LinkInv(l) && l.conn.alive && (connected ==> alive)
    ensures var l' := l.(conn := l.conn.(connected := connected, alive := alive));
            LinkInv(l') && LinkLog(l') == LinkLog(l)
  {
  }

  lemma {:induction false} RunKeeps(events: seq<Event>, s: System)
    requires Run(events, s)
    ensures Inv(s)
    decreases |events|
  {
    if events == [] {
      InitInv();
    } else {
      hide Inv, Apply, Enabled;
      var before, last := events[..|events| - 1], events[|events| - 1];
      var p :| Run(before, p) && Enabled(p, last) && s == Apply(p, last);
      RunKeeps(before, p);
      EventKeeps(p, last);
    }
  }

  lemma InitInv()
    ensures Inv(INIT)
  {
  }
}
