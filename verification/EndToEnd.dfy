/** What holds in every reachable state of the proxy, from bytes to sessions. */
module EndToEnd {
  import opened Bytes
  import opened Framing
  import Grammar
  import opened Fragmentation
  import Cuts
  import opened Messages
  import opened Dispatch
  import opened Exchange
  import opened Pairing

  lemma ReachableInv(s: System)
    requires Reachable(s)
    ensures Inv(s)
  {
    var events :| Run(events, s);
    RunKeeps(events, s);
  }

  lemma LinkFacts(s: System, i: nat)
    requires Reachable(s) && i < |s.links|
    ensures LinkInv(s.links[i]) && OverLink(s.given, i) == LinkLog(s.links[i])
  {
    hide Reachable, LinkInv, LinkLog, OverLink, RequestsInv, SessionsInv, DroppedInv, CrashInv;
    ReachableInv(s);
  }

  // ---- Any backend ----

  /** In every run, whatever a backend sends and however it comes in pieces: what has been handed
      on over a link is what the framer makes of the pieces, its `k`-th text went to the session
      that sent the `k`-th request, and the queue holds the owners of all later requests. */
  lemma HandedToOwners(s: System, i: nat)
    requires Reachable(s) && i < |s.links|
    ensures var l := s.links[i];
            && Feed(l.handed, l.conn.input) == FeedAll([], l.pieces)
            && Concat(l.replies) == Concat(l.pieces) + l.wire
            && |l.handed| <= |l.conn.owners| == |l.conn.written|
            && l.conn.fifo == l.conn.owners[|l.handed|..]
            && OverLink(s.given, i) == Paired(l.conn.owners, l.handed)
  {
    hide Reachable, FeedAll, Concat, OverLink, Paired;
    LinkFacts(s, i);
  }

  /** A read of replies asks an empty queue for its front exactly when the framer makes more texts
      of all the pieces than there were requests. */
  lemma CrashesExactly(s: System, i: nat, count: nat, takes: nat -> bool)
    requires Reachable(s) && !s.crashed && i < |s.links| && s.links[i].conn.alive && count <= |s.links[i].wire|
    ensures var l := s.links[i];
            OnReply(s, i, count, takes).crashed
            <==> |FeedAll([], l.pieces + [l.wire[..count]]).segments| > |l.conn.written|
  {
    hide Reachable, LinkInv, OverLink, FeedAll, Read, Deliver, Entries;
    LinkFacts(s, i);
    ReplyKeepsLink(s.links[i], count);
  }

  /** And nothing else crashes: in a crashed state that is so of some link. */
  lemma CrashedByOverrun(s: System)
    requires Reachable(s) && s.crashed
    ensures exists i, count :: 0 <= i < |s.links| && Overruns(s.links[i], count)
  {
    hide Reachable, CoreInv, Overruns;
    ReachableInv(s);
  }

  lemma {:induction false} SameTexts(owners: seq<nat>, a: seq<Text>, b: seq<Text>)
    requires |a| <= |owners| && |b| <= |owners|
    ensures Paired(owners, a) == Paired(owners, b) <==> a == b
  {
    if Paired(owners, a) == Paired(owners, b) {
      forall k | 0 <= k < |a| ensures a[k] == b[k] {
        assert Paired(owners, a)[k] == Paired(owners, b)[k];
      }
    }
  }

  /** When a backend has answered with messages, no more than there were requests, and nothing is
      under way: the `k`-th reply has gone, whole and alone, to the session that sent the `k`-th
      request, for all of them, exactly when between two reads that end on a boundary of tokens
      there always are whole replies of which none but the last is an array with elements. */
  lemma RepliesGoToOwnersExactly(s: System, i: nat)
    requires Reachable(s) && i < |s.links| && s.links[i].wire == []
    requires AllMessages(s.links[i].replies) && |s.links[i].replies| <= |s.links[i].conn.written|
    ensures var l := s.links[i];
            |l.replies| <= |l.conn.owners|
            && (OverLink(s.given, i) == Paired(l.conn.owners, l.replies) <==> Grouped(Epochs([], l.pieces), l.replies))
  {
    hide Reachable, OverLink, FeedAll, AllMessages, Concat, Paired;
    var l := s.links[i];
    HandedToOwners(s, i);
    assert Concat(l.pieces) + [] == Concat(l.pieces);
    MessagesExactly(l.replies, l.pieces);
    SameTexts(l.conn.owners, l.handed, l.replies);
  }

  // ---- Backends that answer with scalars ----

  /** One scalar for each request so far, or for fewer. */
  predicate ScalarBackend(l: Link) {
    AllScalars(l.replies) && |l.replies| <= |l.conn.written|
  }

  /** The beginning of a row of scalars, in any pieces: the first of them are handed over, whole,
      and less than one is kept. */
  lemma ScalarPrefix(chunks: seq<Text>, x: Text, rs: seq<Text>)
    requires AllScalars(rs) && Concat(chunks) + x == Concat(rs)
    ensures var f := FeedAll([], chunks);
            && |f.segments| <= |rs| && f.segments == rs[..|f.segments|]
            && f.rest + x == Concat(rs[|f.segments|..]) && FlatEnd(f.rest) == 0
  {
    var b := Concat(chunks);
    ScalarTokens(rs);
    Grammar.ScanAppend(b, x);
    hide Read, Tokens, HasOpen, FlatVerdict, Grammar.IsScalar, FeedAll, Concat;
    ScalarRead(b);
    Cuts.AllCutsAgreeExactly(b);
    LeftHasNoToken(b);
    Grammar.TokensAreTokens(b);
    hide FlatEnd, Grammar.IsToken;
    var f := Read(b);
    var k := |f.segments|;
    assert f.segments == rs[..k] && rs == rs[..k] + rs[k..];
    ConcatAppend(rs[..k], rs[k..]);
    var done := b[..FlatEnd(b)];
    assert b == done + f.rest;
    PlusAssociates(done, f.rest, x);
    SameBehind(done, f.rest + x, Concat(rs[k..]));
  }

  lemma SameBehind(a: Text, b: Text, c: Text)
    requires a + b == a + c
    ensures b == c
  {
    assert b == (a + b)[|a|..];
    assert c == (a + c)[|a|..];
  }

  /** A row of scalars in which not even one is whole is empty. */
  lemma WholeScalars(rs: seq<Text>)
    requires AllScalars(rs) && FlatEnd(Concat(rs)) == 0
    ensures rs == [] && Concat(rs) == []
  {
    hide Grammar.IsScalar, FlatVerdict, Tokens;
    ScalarTokens(rs);
    Grammar.CompleteEnd(Concat(rs));
    NoTokenYet(Concat(rs));
  }

  /** Every reply that has been handed on went byte for byte to the session that sent its request,
      in every interleaving and fragmentation; the others are in the buffer or under way, and
      when nothing is under way all have been handed on. */
  lemma RepliesGoToOwners(s: System, i: nat)
    requires Reachable(s) && i < |s.links| && ScalarBackend(s.links[i])
    ensures var l := s.links[i];
            var h := |l.handed|;
            && h <= |l.replies| <= |l.conn.owners|
            && l.conn.fifo == l.conn.owners[h..]
            && OverLink(s.given, i) == Paired(l.conn.owners, l.replies[..h])
            && l.conn.input + l.wire == Concat(l.replies[h..])
            && (l.wire == [] ==> h == |l.replies| && l.conn.input == [])
  {
    hide Reachable, OverLink, FeedAll, AllScalars, Concat, FlatEnd;
    var l := s.links[i];
    HandedToOwners(s, i);
    ScalarPrefix(l.pieces, l.wire, l.replies);
    if l.wire == [] {
      var rs := l.replies[|l.handed|..];
      assert l.conn.input + [] == l.conn.input;
      ScalarsFrom(l.replies, |l.handed|);
      WholeScalars(rs);
    }
  }

  lemma ScalarsFrom(rs: seq<Text>, k: nat)
    requires AllScalars(rs) && k <= |rs|
    ensures AllScalars(rs[k..])
  {
    hide Grammar.IsScalar;
  }

  /** And no empty queue is ever asked for its front. */
  lemma ScalarsNeverCrash(s: System)
    requires Reachable(s) && forall i :: 0 <= i < |s.links| ==> ScalarBackend(s.links[i])
    ensures !s.crashed
  {
    hide Reachable, AllScalars, OverLink;
    if s.crashed {
      CrashedByOverrun(s);
      var i, count :| 0 <= i < |s.links| && Overruns(s.links[i], count);
      HandedToOwners(s, i);
      NoOverrun(s.links[i], count);
    }
  }

  lemma NoOverrun(l: Link, count: nat)
    requires ScalarBackend(l) && count <= |l.wire| && Concat(l.replies) == Concat(l.pieces) + l.wire
    ensures !Overruns(l, count)
  {
    hide FeedAll, AllScalars, FlatEnd;
    var chunk, x := l.wire[..count], l.wire[count..];
    ConcatAppend(l.pieces, [chunk]);
    ConcatOne(chunk);
    hide Concat;
    assert l.wire == chunk + x;
    PlusAssociates(Concat(l.pieces), chunk, x);
    ScalarPrefix(l.pieces + [chunk], x, l.replies);
  }

  // ---- Sessions ----

  lemma DroppedAtTheEnd(s: System)
    requires Reachable(s)
    ensures DroppedInv(s.sessions, s.given)
  {
    hide Reachable, DroppedInv, LinksInv, GivenInv, SessionsInv, RequestsInv, KnownInv;
    ReachableInv(s);
  }

  /** A client has been sent exactly what the log says it was, and while it is open nothing that it
      was handed is missing but what the bufferevent refused; its requests are what the framer
      makes of the pieces of its bytes; and each link was sent those that were placed there, in
      their order. */
  lemma SessionsAreSent(s: System, sid: nat)
    requires Reachable(s) && sid in s.sessions
    ensures var me := s.sessions[sid];
            && me.delivered == SentTo(s.given, sid)
            && Feed(me.framed, me.input) == FeedAll([], me.pieces)
            && Concat(me.framed) + me.input == Concat(me.pieces)
            && |me.placed| == |me.framed|
            && (forall k :: 0 <= k < |me.placed| && me.placed[k].Some? ==> me.placed[k].value < |s.links|)
            && (!me.closing ==>
                  forall k :: 0 <= k < |s.given| && s.given[k].who == sid ==> s.given[k].outcome != Dropped)
            && forall i :: 0 <= i < |s.links| ==>
                 PickFor(s.links[i].conn.owners, s.links[i].conn.written, sid) == PickFor(me.placed, me.framed, Some(i))
  {
    hide Reachable, LinkInv, GivenInv, OverLink, PickFor, SentTo, FeedAll, CrashInv, Concat;
    ReachableInv(s);
    DroppedAtTheEnd(s);
    var me := s.sessions[sid];
    assert SentInv(me, SentTo(s.given, sid)) && PlacedInv(me, sid, s.links) && BytesInv(me);
    OwnersAreWritten(s.links);
    NothingLost([], me.pieces);
    assert [] + Concat(me.pieces) == Concat(me.pieces);
  }

  /** No write to this client has failed so far. */
  ghost predicate NoneRefused(given: seq<Given>, sid: nat) {
    forall k :: 0 <= k < |given| && given[k].who == sid ==> given[k].outcome != Refused
  }

  /** If no write to the client has failed, it was sent all that was handed to it in that order, or
      the first part of it if it is closing; its places in the queues are used up all the same. */
  lemma AllIsSent(s: System, sid: nat)
    requires Reachable(s) && sid in s.sessions && NoneRefused(s.given, sid)
    ensures var me := s.sessions[sid];
            && me.delivered <= ForSession(s.given, sid)
            && (!me.closing ==> me.delivered == ForSession(s.given, sid))
  {
    hide Reachable, CoreInv, CrashInv, SentTo, ForSession;
    DroppedAtTheEnd(s);
    SessionsAreSent(s, sid);
    SentIsPrefix(s.given, sid);
  }

  lemma {:induction false} SentIsPrefix(given: seq<Given>, sid: nat)
    requires NoneRefused(given, sid)
    requires forall j, k :: 0 <= j < k < |given| && given[j].who == given[k].who && given[j].outcome == Dropped ==>
               given[k].outcome == Dropped
    ensures SentTo(given, sid) <= ForSession(given, sid)
    ensures (forall k :: 0 <= k < |given| && given[k].who == sid ==> given[k].outcome == Sent) ==>
              SentTo(given, sid) == ForSession(given, sid)
  {
    if given != [] {
      var before, last := given[..|given| - 1], given[|given| - 1];
      SentIsPrefix(before, sid);
      if last.who == sid && last.outcome == Sent {
        assert forall k :: 0 <= k < |before| && before[k].who == sid ==> given[k].outcome == Sent;
      }
    }
  }

  /** The requests of one read are placed by the state machine as `TcpSession.OnRead` does it. */
  lemma {:induction false} PlacedAsForwarded(s: System, sid: nat, segments: seq<Text>,
                                             accept: (nat, nat) -> bool, j: nat)
    requires sid in s.sessions && j <= |segments|
    ensures var s' := PlaceAll(s, sid, segments, accept, j);
            var f := ForwardAll(Conns(s.links), s.sessions[sid].ids, sid, segments, accept, j);
            Conns(s'.links) == f.conns && s'.sessions[sid].ids == f.ids
    decreases |segments| - j
  {
    hide Place;
    if j < |segments| {
      var p := Place(Conns(s.links), s.sessions[sid].ids, sid, segments[j], Row(accept, j));
      var m := PlaceOne(s, sid, segments[j], Row(accept, j));
      assert Conns(WithConns(s.links, p.conns)) == p.conns;
      PlacedAsForwarded(m, sid, segments, accept, j + 1);
    }
  }

  /** A read of replies changes the connection and the sessions as `RedisClient.OnRead` does it. */
  lemma RepliesAsRead(s: System, i: nat, count: nat, accept: nat -> bool)
    requires i < |s.links| && count <= |s.links[i].wire|
    ensures var c, s' := s.links[i].conn, OnReply(s, i, count, accept);
            var f := Read(c.input + s.links[i].wire[..count]);
            var n := |f.segments|;
            && (s'.crashed <==> n > |c.fifo|)
            && (n <= |c.fifo| ==>
                  && |s'.links| == |s.links|
                  && s'.links[i].conn == c.(input := f.rest, fifo := c.fifo[n..])
                  && (forall j :: 0 <= j < |s.links| && j != i ==> s'.links[j] == s.links[j])
                  && s'.sessions.Keys == s.sessions.Keys
                  && Texts(s'.sessions) == GiveAll(Texts(s.sessions), Open(s.sessions), c.fifo, f.segments, accept, n)
                  && forall q :: q in s.sessions ==>
                       s'.sessions[q] == s.sessions[q].(delivered := s'.sessions[q].delivered))
  {
    hide Read, GiveAll, Entries;
    var c := s.links[i].conn;
    var f := Read(c.input + s.links[i].wire[..count]);
    if |f.segments| <= |c.fifo| {
      GivenToOwners(Texts(s.sessions), Open(s.sessions), c.fifo, f.segments, accept, |f.segments|);
    }
  }

  // ---- Runs ----

  lemma ReachStep(s: System, e: Event)
    requires Reachable(s) && Enabled(s, e)
    ensures Reachable(Apply(s, e))
  {
    hide Apply, Enabled;
    var events :| Run(events, s);
    assert (events + [e])[..|events|] == events;
    assert Run(events + [e], Apply(s, e));
  }

  /** One session and one connection, with nothing said yet. */
  function Connection(): System {
    System(map[0 := Session(false, 0, [], [], [], [], [])],
           [Link(Conn(true, true, [], [], [], []), [], [], [], [])], [], false)
  }

  lemma ConnectionReachable()
    ensures Reachable(Connection())
  {
    assert Run([], INIT);
    var s1 := Apply(INIT, Accept(0, 0));
    ReachStep(INIT, Accept(0, 0));
    var s2 := Apply(s1, AddConn(true));
    ReachStep(s1, AddConn(true));
    ReachStep(s2, Connected(0));
    assert Apply(s2, Connected(0)) == Connection();
  }

  /** The state behind the request `v`, and behind its answer `r`. */
  function Asked(v: Text): System {
    System(map[0 := Session(false, 1, [], [], [v], [v], [Some(0)])],
           [Link(Conn(true, true, [], [0], [v], [0]), [], [], [], [])], [], false)
  }

  function Answered(v: Text, r: Text): System {
    Asked(v).(links := [Link(Conn(true, true, [], [0], [v], [0]), [r], r, [], [])])
  }

  /** One whole request of a session with an empty buffer, whose first probe finds a connection
      that takes it. */
  lemma WholeRequest(s: System, sid: nat, v: Text, accept: (nat, nat) -> bool)
    requires !s.crashed && sid in s.sessions && s.sessions[sid].input == [] && IsMessage(v)
    requires s.links != [] && accept(0, 0)
    requires var c := s.links[Slot(|s.links|, s.sessions[sid].ids, 0)].conn;
             c.connected && c.alive
    ensures var me, i := s.sessions[sid], Slot(|s.links|, s.sessions[sid].ids, 0);
            var l := s.links[i];
            Apply(s, Request(sid, v, accept))
            == s.(sessions := s.sessions[sid := me.(ids := IdAt(me.ids, 1), pieces := me.pieces + [v],
                                                    framed := me.framed + [v], placed := me.placed + [Some(i)])],
                  links := s.links[i := l.(conn := Hand(l.conn, sid, v))])
  {
    hide Read, IsMessage, Slot, IdAt;
    WholeRead(v);
    EmptyText(v);
    var me := s.sessions[sid];
    var fed := s.(sessions := s.sessions[sid := me.(input := [], pieces := me.pieces + [v])]);
    FirstTry(Conns(s.links), me.ids, sid, v, Row(accept, 0));
    assert Conns(fed.links) == Conns(s.links);
    PlaceOneExactly(fed, sid, v, Row(accept, 0));
    hide PlaceOne, Place;
    assert PlaceAll(fed, sid, [v], accept, 0) == PlaceOne(fed, sid, v, Row(accept, 0));
  }

  lemma FirstTry(conns: seq<Conn<nat>>, g: nat, who: nat, segment: Text, accept: nat -> bool)
    requires conns != [] && conns[Slot(|conns|, g, 0)].connected && conns[Slot(|conns|, g, 0)].alive && accept(0)
    ensures var i := Slot(|conns|, g, 0);
            Place(conns, g, who, segment, accept)
            == Placed(conns[i := Hand(conns[i], who, segment)], IdAt(g, 1), Some(i))
  {
    hide Slot, IdAt;
    assert Takes(conns, g, accept, 0);
    assert Search(conns, g, accept, 0) == 0;
  }

  lemma RequestIsPlaced(v: Text, accept: (nat, nat) -> bool)
    requires IsMessage(v) && accept(0, 0)
    ensures Apply(Connection(), Request(0, v, accept)) == Asked(v)
  {
    hide IsMessage, Apply;
    assert Slot(1, 0, 0) == 0 && IdAt(0, 1) == 1;
    WholeRequest(Connection(), 0, v, accept);
    var none: seq<nat>, no: seq<Text> := [], [];
    assert none + [0] == [0] && no + [v] == [v];
    assert Connection().sessions[0].placed + [Some(0)] == [Some(0)];
  }

  lemma WholeRead(v: Text)
    requires IsMessage(v)
    ensures Read(v) == Feed([v], [])
  {
    hide Read, IsMessage, FlatVerdict;
    MessageComplete(v);
    OneReadExactly([v]);
    ConcatOne(v);
    CompleteRead(v);
  }

  lemma EmptyText(v: Text)
    ensures [] + v == v == v + [] && v[..|v|] == v && v[|v|..] == []
  {
  }

  lemma AnsweredReachable(v: Text, r: Text)
    requires IsMessage(v)
    ensures Reachable(Answered(v, r))
  {
    hide Read, IsMessage, Run, Reachable;
    var accept := (j: nat, k: nat) => true;
    ConnectionReachable();
    RequestIsPlaced(v, accept);
    ReachStep(Connection(), Request(0, v, accept));
    ReachStep(Asked(v), Answer(0, r));
    EmptyText(r);
    var l := Asked(v).links[0];
    assert l.replies + [r] == [r] && l.wire + r == r;
    assert Apply(Asked(v), Answer(0, r)).links == Answered(v, r).links;
  }

  /** Any request that is one message and any answer that is one make the whole way: there is a
      run in which the backend is written exactly the request and the client exactly the reply. */
  lemma OneExchange(v: Text, r: Text)
    requires IsMessage(v) && IsMessage(r)
    ensures exists s :: Reachable(s) && !s.crashed && |s.links| == 1 && s.links[0].conn.written == [v]
              && 0 in s.sessions && s.sessions[0].delivered == [r] && s.links[0].conn.fifo == []
  {
    hide IsMessage, Reachable, OnReply;
    var takes := (k: nat) => true;
    AnsweredReachable(v, r);
    ReachStep(Answered(v, r), Reply(0, |r|, takes));
    ReplyIsGiven(v, r, takes);
  }

  lemma ReplyIsGiven(v: Text, r: Text, takes: nat -> bool)
    requires IsMessage(r) && takes(0)
    ensures var s := OnReply(Answered(v, r), 0, |r|, takes);
            !s.crashed && |s.links| == 1 && s.links[0].conn.written == [v] && s.links[0].conn.fifo == []
            && 0 in s.sessions && s.sessions[0].delivered == [r]
  {
    hide Read, IsMessage, Deliver, Entries;
    var s := Answered(v, r);
    WholeRead(r);
    EmptyText(r);
    var queue: seq<nat>, texts := [0], [r];
    DeliverExactly(s.sessions, queue, texts, takes, 1);
    assert PickTaken(queue, texts, takes, 0, 1) == [r] by {
      assert PickTaken(queue, texts, takes, 0, 0) == [];
    }
    assert s.sessions[0].delivered + [r] == [r];
    assert OnReply(s, 0, |r|, takes).sessions == Deliver(s.sessions, queue, texts, takes, 1);
  }

  /** An array with elements as the answer can crash the proxy: if its header comes in a read of
      its own it takes the one session from the queue, and the read of the rest asks the empty
      queue for its front. */
  lemma ArrayReplyCrashes(v: Text, r: Text)
    requires IsMessage(v) && IsOpened(r) && Next(r).length < |r|
    ensures exists s :: Reachable(s) && s.crashed && |s.links| == 1
              && s.links[0].conn.written == [v] && s.links[0].replies == [r]
  {
    hide Next, IsMessage, Reachable, OnReply, FlatVerdict;
    var n, takes := Next(r).length, (k: nat) => true;
    AnsweredReachable(v, r);
    HeaderTakesTheSession(v, r, n, takes);
    ReachStep(Answered(v, r), Reply(0, n, takes));
    var s := OnReply(Answered(v, r), 0, n, takes);
    RestFindsNobody(s, v, r, n, takes);
    ReachStep(s, Reply(0, |r| - n, takes));
  }

  lemma HeaderTakesTheSession(v: Text, r: Text, n: nat, takes: nat -> bool)
    requires IsOpened(r) && n == Next(r).length
    ensures n <= |r|
    ensures var s := OnReply(Answered(v, r), 0, n, takes);
            !s.crashed && s.links == [Link(Conn(true, true, [], [], [v], [0]), [r], r[n..], [r[..n]], [r[..n]])]
  {
    hide Next, Read, FlatVerdict, Deliver, Entries;
    HeaderAlone(r);
    assert [] + r[..n] == r[..n];
    assert [] + [r[..n]] == [r[..n]];
    var one: seq<nat> := [0];
    assert one[1..] == [];
  }

  lemma RestFindsNobody(s: System, v: Text, r: Text, n: nat, takes: nat -> bool)
    requires IsOpened(r) && n == Next(r).length < |r| && !s.crashed
    requires s.links == [Link(Conn(true, true, [], [], [v], [0]), [r], r[n..], [r[..n]], [r[..n]])]
    ensures var after := OnReply(s, 0, |r| - n, takes);
            after.crashed && after.links == s.links
  {
    OpenedRest(r);
    hide Next, Read, FlatVerdict, Deliver, Entries;
    CompleteIsReported(r[n..]);
    var x := r[n..];
    assert x[..|r| - n] == x && [] + x == x;
  }
}
