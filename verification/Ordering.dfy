/** In which order a session is handed its replies: over one connection, and over several. */
module Ordering {
  import opened Bytes
  import opened Framing
  import Grammar
  import Fragmentation
  import opened Messages
  import opened Dispatch
  import opened Exchange
  import opened Pairing
  import opened EndToEnd

  // ---- A single connection ----

  /** The places where `who` stands, in their order. */
  function Positions<S(==)>(places: seq<S>, who: S): (p: seq<nat>)
    ensures forall j :: 0 <= j < |p| ==> p[j] < |places| && places[p[j]] == who
    ensures forall j, k :: 0 <= j < k < |p| ==> p[j] < p[k]
    ensures forall k :: 0 <= k < |places| && places[k] == who ==> k in p
  {
    if places == [] then []
    else
      var n := |places| - 1;
      Positions(places[..n], who) + if places[n] == who then [n] else []
  }

  lemma {:induction false} PickForAt<S>(owners: seq<S>, texts: seq<Text>, sid: S)
    requires |texts| == |owners|
    ensures var p := Positions(owners, sid);
            && |PickFor(owners, texts, sid)| == |p|
            && forall j :: 0 <= j < |p| ==> PickFor(owners, texts, sid)[j] == texts[p[j]]
  {
    if owners != [] {
      hide PickFor;
      var n := |owners| - 1;
      PickForAt(owners[..n], texts[..n], sid);
      PickForOne(owners[..n], texts[..n], owners[n], texts[n], sid);
      assert owners == owners[..n] + [owners[n]] && texts == texts[..n] + [texts[n]];
    }
  }

  lemma {:induction false} PositionsPrefix(owners: seq<nat>, h: nat, sid: nat)
    requires h <= |owners|
    ensures Positions(owners[..h], sid) <= Positions(owners, sid)
    decreases |owners|
  {
    if h == |owners| {
      assert owners[..h] == owners;
    } else {
      var n := |owners| - 1;
      PositionsPrefix(owners[..n], h, sid);
      assert owners[..n][..h] == owners[..h];
    }
  }

  lemma {:induction false} OneLinkLog(given: seq<Given>, owners: seq<nat>, texts: seq<Text>, sid: nat)
    requires |texts| <= |owners| && OverLink(given, 0) == Paired(owners, texts)
    requires forall i: nat :: i >= 1 ==> OverLink(given, i) == []
    ensures ForSession(given, sid) == PickFor(owners[..|texts|], texts, sid)
  {
    if given == [] {
      assert texts == [];
    } else {
      var before, last := given[..|given| - 1], given[|given| - 1];
      assert |OverLink(given, last.link)| >= 1;
      forall i: nat {:trigger OverLink(before, i)} | i >= 1 ensures OverLink(before, i) == [] {
        assert OverLink(given, i) == [];
      }
      var n := |texts| - 1;
      LastPaired(OverLink(before, 0), Handing(last.who, last.reply), owners, texts);
      OneLinkLog(before, owners, texts[..n], sid);
      hide PickFor, OverLink;
      PickForOne(owners[..n], texts[..n], owners[n], texts[n], sid);
      assert owners[..n + 1] == owners[..n] + [owners[n]] && texts == texts[..n] + [texts[n]];
    }
  }

  lemma LastPaired(less: seq<Handing>, last: Handing, owners: seq<nat>, texts: seq<Text>)
    requires |texts| <= |owners| && less + [last] == Paired(owners, texts)
    ensures texts != [] && less == Paired(owners, texts[..|texts| - 1])
    ensures last == Handing(owners[|texts| - 1], texts[|texts| - 1])
  {
    var whole := Paired(owners, texts);
    assert |less| == |texts| - 1;
    assert whole[|less|] == last;
    forall k | 0 <= k < |less| ensures less[k] == whole[k] {
      assert (less + [last])[k] == less[k];
    }
  }

  /** With one connection: the session's `j`-th placed request is what was written to the backend at
      its `j`-th place, and the `j`-th text handed to it is the one the proxy handed on for that
      place. The requests that were not placed are the dropped ones. */
  lemma SingleLinkInOrder(s: System, sid: nat)
    requires Reachable(s) && |s.links| == 1 && sid in s.sessions
    ensures var me, l, given := s.sessions[sid], s.links[0], ForSession(s.given, sid);
            var p, r := Positions(l.conn.owners, sid), Positions(me.placed, Some(0));
            && |given| <= |p| == |r| && |l.handed| <= |l.conn.owners| == |l.conn.written| && |me.placed| == |me.framed|
            && (forall k :: 0 <= k < |me.placed| ==> (k in r <==> me.placed[k].Some?))
            && (forall j :: 0 <= j < |r| ==> me.framed[r[j]] == l.conn.written[p[j]])
            && (forall j :: 0 <= j < |given| ==> p[j] < |l.handed| && given[j] == l.handed[p[j]])
            && (|l.handed| == |l.conn.written| ==> |given| == |r|)
  {
    hide Reachable, OverLink, PickFor, ForSession, SentTo, Fragmentation.FeedAll, Concat, Positions, Paired;
    var me, l := s.sessions[sid], s.links[0];
    var owners, h := l.conn.owners, |l.handed|;
    SessionsAreSent(s, sid);
    HandedToOwners(s, 0);
    OnlyLink(s);
    OneLinkLog(s.given, owners, l.handed, sid);
    PickForAt(owners, l.conn.written, sid);
    PickForAt(me.placed, me.framed, Some(0));
    PickForAt(owners[..h], l.handed, sid);
    PositionsPrefix(owners, h, sid);
    assert h == |owners| ==> owners[..h] == owners;
  }

  lemma OnlyLink(s: System)
    requires Reachable(s) && |s.links| == 1
    ensures forall i: nat :: i >= 1 ==> OverLink(s.given, i) == []
  {
    hide Reachable, LinkInv, LinkLog, OverLink, RequestsInv, SessionsInv, DroppedInv, CrashInv;
    ReachableInv(s);
  }

  /** Client and backend message by message, over one connection: if both streams come in pieces
      that keep their messages apart, each message of the client that was not dropped was written
      to the backend whole, and the replies that the client was given are the ones to them, in
      their order. */
  lemma MessagesAreAnswered(s: System, sid: nat, vs: seq<Text>)
    requires Reachable(s) && |s.links| == 1 && sid in s.sessions && AllMessages(vs)
    requires var me := s.sessions[sid];
             Concat(me.pieces) == Concat(vs) && Grouped(Fragmentation.Epochs([], me.pieces), vs)
    requires var l := s.links[0];
             && l.wire == [] && AllMessages(l.replies) && |l.replies| == |l.conn.written|
             && Grouped(Fragmentation.Epochs([], l.pieces), l.replies)
    ensures var me, l, given := s.sessions[sid], s.links[0], ForSession(s.given, sid);
            var p, r := Positions(l.conn.owners, sid), Positions(me.placed, Some(0));
            && |given| == |r| == |p| && |l.conn.owners| == |l.replies| && |me.placed| == |vs|
            && forall j :: 0 <= j < |r| ==> l.conn.written[p[j]] == vs[r[j]] && given[j] == l.replies[p[j]]
  {
    hide Reachable, OverLink, PickFor, ForSession, SentTo, Fragmentation.FeedAll, Concat, Positions, Paired, Grouped,
         AllMessages;
    var me, l := s.sessions[sid], s.links[0];
    SessionsAreSent(s, sid);
    HandedToOwners(s, 0);
    SingleLinkInOrder(s, sid);
    MessagesExactly(vs, me.pieces);
    assert Concat(l.pieces) + [] == Concat(l.pieces);
    MessagesExactly(l.replies, l.pieces);
  }

  // ---- Several connections ----

  /** The session's request number `q` on link `i` has its text, or still waits for it. */
  predicate Has(s: System, sid: nat, i: nat, q: nat) {
    i < |s.links| && q < |Positions(s.links[i].conn.owners, sid)|
    && Positions(s.links[i].conn.owners, sid)[q] < |s.links[i].handed|
  }

  predicate Waits(s: System, sid: nat, i: nat, q: nat) {
    i < |s.links| && q < |Positions(s.links[i].conn.owners, sid)|
    && Positions(s.links[i].conn.owners, sid)[q] >= |s.links[i].handed|
  }

  /** The session has sent request `q` of link `i` before request `r` of link `j`. */
  predicate Earlier(s: System, sid: nat, i: nat, q: nat, j: nat, r: nat) {
    sid in s.sessions
    && var placed := s.sessions[sid].placed;
       && q < |Positions(placed, Some(i))| && r < |Positions(placed, Some(j))|
       && Positions(placed, Some(i))[q] < Positions(placed, Some(j))[r]
  }

  /** These events lead from `s` to `t`, with no more requests of this session. */
  ghost predicate Leads(s: System, events: seq<Event>, t: System, sid: nat)
    decreases |events|
  {
    if events == [] then s == t
    else
      var e := events[0];
      Enabled(s, e) && !(e.Request? && e.sid == sid) && Leads(Apply(s, e), events[1..], t, sid)
  }

  ghost predicate Later(s: System, t: System, sid: nat) {
    exists events :: Leads(s, events, t, sid)
  }

  /** Of two requests that wait in `s`, the later one is answered in `t` and the earlier one only
      behind that, in `u`. */
  ghost predicate Overtakes(s: System, sid: nat, i: nat, q: nat, j: nat, r: nat, t: System, u: System) {
    && Waits(s, sid, i, q) && Waits(s, sid, j, r) && Earlier(s, sid, i, q, j, r)
    && Later(s, t, sid) && Has(t, sid, j, r) && Waits(t, sid, i, q)
    && Later(t, u, sid) && Has(u, sid, i, q)
  }

  ghost predicate CanSwap(s: System, sid: nat) {
    exists i: nat, q: nat, j: nat, r: nat, t, u :: Overtakes(s, sid, i, q, j, r, t, u)
  }

  /** The session stands in the queue of a connection that lives. */
  predicate Pends(s: System, i: nat, sid: nat) {
    i < |s.links| && s.links[i].conn.alive && sid in s.links[i].conn.fifo
  }

  /** What never shrinks on a link; a lost one gets nothing more. */
  predicate LinkGrows(l: Link, l': Link) {
    && l.conn.owners <= l'.conn.owners
    && |l.handed| <= |l'.handed|
    && (l'.conn.alive ==> l.conn.alive)
    && (!l.conn.alive ==> l'.handed == l.handed)
  }

  predicate Grows(s: System, t: System, sid: nat) {
    && |s.links| <= |t.links|
    && (forall i :: 0 <= i < |s.links| ==> LinkGrows(s.links[i], t.links[i]))
    && (sid in s.sessions ==> sid in t.sessions && t.sessions[sid].placed == s.sessions[sid].placed)
  }

  lemma {:induction false} PlaceAllGrows(s: System, q: nat, segments: seq<Text>,
                                         accept: (nat, nat) -> bool, j: nat, sid: nat)
    requires q in s.sessions && q != sid && j <= |segments|
    ensures Grows(s, PlaceAll(s, q, segments, accept, j), sid)
    decreases |segments| - j
  {
    hide PlaceOne, Place;
    if j < |segments| {
      PlaceOneExactly(s, q, segments[j], Row(accept, j));
      PlaceAllGrows(PlaceOne(s, q, segments[j], Row(accept, j)), q, segments, accept, j + 1, sid);
    }
  }

  lemma StepGrows(s: System, e: Event, sid: nat)
    requires Enabled(s, e) && !(e.Request? && e.sid == sid)
    ensures Grows(s, Apply(s, e), sid)
  {
    hide PlaceAll, Fragmentation.Read, Deliver, Entries;
    match e
    case Request(q, chunk, accept) =>
      var f := Fragmentation.Read(s.sessions[q].input + chunk);
      var me := s.sessions[q].(input := f.rest, pieces := s.sessions[q].pieces + [chunk]);
      PlaceAllGrows(s.(sessions := s.sessions[q := me]), q, f.segments, accept, 0, sid);
    case Reply(i, count, takes) =>
      var c := s.links[i].conn;
      var f := Fragmentation.Read(c.input + s.links[i].wire[..count]);
      if |f.segments| <= |c.fifo| {
        DeliverExactly(s.sessions, c.fifo, f.segments, takes, |f.segments|);
      }
    case _ =>
  }

  lemma {:induction false} LeadsGrows(s: System, events: seq<Event>, t: System, sid: nat)
    requires Leads(s, events, t, sid)
    ensures Grows(s, t, sid)
    decreases |events|
  {
    if events != [] {
      hide Apply, Enabled;
      StepGrows(s, events[0], sid);
      LeadsGrows(Apply(s, events[0]), events[1..], t, sid);
    }
  }

  lemma LaterGrows(s: System, t: System, sid: nat)
    requires Later(s, t, sid)
    ensures Grows(s, t, sid)
  {
    var events :| Leads(s, events, t, sid);
    LeadsGrows(s, events, t, sid);
  }

  lemma SamePlace(s: System, t: System, sid: nat, i: nat)
    requires Grows(s, t, sid) && i < |s.links|
    ensures Positions(s.links[i].conn.owners, sid) <= Positions(t.links[i].conn.owners, sid)
  {
    var o, o' := s.links[i].conn.owners, t.links[i].conn.owners;
    assert LinkGrows(s.links[i], t.links[i]);
    PositionsPrefix(o', |o|, sid);
    assert o'[..|o|] == o;
  }

  /** A request that has got its text meanwhile waited on a connection that lived. */
  lemma AnsweredOverLive(s: System, t: System, sid: nat, i: nat, q: nat)
    requires Grows(s, t, sid) && Waits(s, sid, i, q) && Has(t, sid, i, q)
    ensures s.links[i].conn.alive
  {
    SamePlace(s, t, sid, i);
    assert LinkGrows(s.links[i], t.links[i]);
  }

  lemma WaitsInQueue(s: System, sid: nat, i: nat)
    requires Reachable(s) && i < |s.links|
    ensures sid in s.links[i].conn.fifo <==> exists q: nat :: Waits(s, sid, i, q)
  {
    hide Reachable, Positions, OverLink, Paired, Concat, Fragmentation.FeedAll;
    HandedToOwners(s, i);
    var c, h := s.links[i].conn, |s.links[i].handed|;
    var p := Positions(c.owners, sid);
    if q: nat :| Waits(s, sid, i, q) {
      assert c.fifo[p[q] - h] == sid;
    }
    if sid in c.fifo {
      var k :| 0 <= k < |c.fifo| && c.fifo[k] == sid;
      assert c.owners[h + k] == sid;
      var q: nat :| q < |p| && p[q] == h + k;
      assert Waits(s, sid, i, q);
    }
  }

  lemma SameNumber(s: System, sid: nat, i: nat)
    requires Reachable(s) && sid in s.sessions && i < |s.links|
    ensures |Positions(s.links[i].conn.owners, sid)| == |Positions(s.sessions[sid].placed, Some(i))|
  {
    hide Reachable, Positions, OverLink, Paired, Concat, Fragmentation.FeedAll, PickFor, SentTo;
    SessionsAreSent(s, sid);
    HandedToOwners(s, i);
    PickForAt(s.links[i].conn.owners, s.links[i].conn.written, sid);
    PickForAt(s.sessions[sid].placed, s.sessions[sid].framed, Some(i));
  }

  /** Over one connection the text of the earlier request comes first. */
  lemma OneLinkKeepsOrder(s: System, t: System, sid: nat, i: nat, q: nat, r: nat)
    requires Grows(s, t, sid) && Waits(s, sid, i, q) && Waits(s, sid, i, r) && Earlier(s, sid, i, q, i, r)
    ensures Has(t, sid, i, r) ==> Has(t, sid, i, q)
  {
    SamePlace(s, t, sid, i);
    hide Positions;
  }

  lemma SwapNeedsTwo(s: System, sid: nat)
    requires CanSwap(s, sid)
    ensures exists i: nat, j: nat :: i != j && 0 <= i < |s.links| && 0 <= j < |s.links|
              && s.links[i].conn.alive && s.links[j].conn.alive
              && (exists q: nat :: Waits(s, sid, i, q)) && (exists r: nat :: Waits(s, sid, j, r))
  {
    hide Leads, Positions, Waits, Has, Earlier;
    var i: nat, q: nat, j: nat, r: nat, t, u :| Overtakes(s, sid, i, q, j, r, t, u);
    LaterGrows(s, t, sid);
    LaterGrows(t, u, sid);
    WaitsSomewhere(s, sid, i, q);
    WaitsSomewhere(s, sid, j, r);
    WaitsSomewhere(t, sid, i, q);
    AnsweredOverLive(s, t, sid, j, r);
    AnsweredOverLive(t, u, sid, i, q);
    AliveBefore(s, t, sid, i, q);
    if i == j {
      OneLinkKeepsOrder(s, t, sid, i, q, r);
      NotBoth(t, sid, i, q);
    }
  }

  lemma AliveBefore(s: System, t: System, sid: nat, i: nat, q: nat)
    requires Grows(s, t, sid) && Waits(s, sid, i, q) && i < |t.links| && t.links[i].conn.alive
    ensures i < |s.links| && s.links[i].conn.alive
  {
    assert LinkGrows(s.links[i], t.links[i]);
  }

  lemma NotBoth(s: System, sid: nat, i: nat, q: nat)
    ensures !(Has(s, sid, i, q) && Waits(s, sid, i, q))
  {
  }

  lemma WaitsSomewhere(s: System, sid: nat, i: nat, q: nat)
    requires Waits(s, sid, i, q)
    ensures i < |s.links|
  {
  }

  /** Every backend has answered with scalars, one for each request so far, or for fewer. */
  predicate ScalarBackends(s: System) {
    forall i :: 0 <= i < |s.links| ==> ScalarBackend(s.links[i])
  }

  lemma LaterStep(s: System, e: Event, t: System, sid: nat)
    requires Enabled(s, e) && !(e.Request? && e.sid == sid) && Later(Apply(s, e), t, sid)
    ensures Later(s, t, sid)
  {
    hide Apply, Enabled;
    var events :| Leads(Apply(s, e), events, t, sid);
    assert ([e] + events)[1..] == events;
    assert Leads(s, [e] + events, t, sid);
  }

  /** The sessions wait for the same, but for what link `j` has answered. */
  predicate OnlyAnswers(s: System, t: System, j: nat) {
    && |t.links| == |s.links| && j < |s.links|
    && (forall i :: 0 <= i < |s.links| && i != j ==> t.links[i] == s.links[i])
    && t.links[j].conn.owners == s.links[j].conn.owners && t.links[j].conn.alive == s.links[j].conn.alive
    && t.links[j].conn.written == s.links[j].conn.written
    && t.sessions.Keys == s.sessions.Keys
    && forall q :: q in s.sessions ==> t.sessions[q].placed == s.sessions[q].placed
  }

  /** All that is under way on a link comes in one read. */
  lemma ReadAll(s: System, j: nat, sid: nat) returns (t: System)
    requires Reachable(s) && !s.crashed && ScalarBackends(s) && j < |s.links| && s.links[j].conn.alive
    ensures Later(s, t, sid) && Reachable(t) && !t.crashed && ScalarBackends(t) && OnlyAnswers(s, t, j)
    ensures |t.links[j].handed| == |s.links[j].replies|
  {
    hide Reachable, ScalarBackend, OnReply, OverLink, Concat, FlatEnd;
    var takes, n := (k: nat) => true, |s.links[j].wire|;
    var e := Reply(j, n, takes);
    t := OnReply(s, j, n, takes);
    assert Enabled(s, e) && Apply(s, e) == t;
    ReachStep(s, e);
    ReadAllExactly(s, j, takes);
    if t.crashed {
      assert t.links == s.links;
      ScalarsNeverCrash(t);
    }
    assert Leads(t, [], t, sid);
    LaterStep(s, e, t, sid);
    AllHanded(t, j);
  }

  lemma AllHanded(s: System, j: nat)
    requires Reachable(s) && j < |s.links| && ScalarBackend(s.links[j]) && s.links[j].wire == []
    ensures |s.links[j].handed| == |s.links[j].replies|
  {
    hide Reachable, OverLink, Concat, Paired, ScalarBackend;
    RepliesGoToOwners(s, j);
  }

  lemma ReadAllExactly(s: System, j: nat, takes: nat -> bool)
    requires !s.crashed && j < |s.links| && ScalarBackends(s)
    ensures var t := OnReply(s, j, |s.links[j].wire|, takes);
            if t.crashed then t.links == s.links
            else OnlyAnswers(s, t, j) && t.links[j].wire == [] && t.links[j].replies == s.links[j].replies
                 && ScalarBackends(t)
  {
    hide Fragmentation.Read, Deliver, Entries, AllScalars;
    var l := s.links[j];
    var c := l.conn;
    var f := Fragmentation.Read(c.input + l.wire[..|l.wire|]);
    if |f.segments| <= |c.fifo| {
      DeliverExactly(s.sessions, c.fifo, f.segments, takes, |f.segments|);
      assert l.wire[|l.wire|..] == [];
      var t := OnReply(s, j, |l.wire|, takes);
      forall i | 0 <= i < |t.links| ensures ScalarBackend(t.links[i]) {
        assert ScalarBackend(s.links[i]);
      }
    }
  }

  const OK: Text := [PLUS] + CRLF

  lemma OkIsScalar()
    ensures Grammar.IsScalar(OK)
  {
    assert OK[..1] == [PLUS];
  }

  /** The backend of a link answers until it has given `n` replies. */
  lemma {:induction false} AnswerUpTo(s: System, j: nat, n: nat, sid: nat) returns (t: System)
    requires Reachable(s) && !s.crashed && ScalarBackends(s) && j < |s.links| && s.links[j].conn.alive
    requires n <= |s.links[j].conn.written|
    ensures Later(s, t, sid) && Reachable(t) && !t.crashed && ScalarBackends(t) && OnlyAnswers(s, t, j)
    ensures t.links[j].handed == s.links[j].handed && n <= |t.links[j].replies|
    decreases n - |s.links[j].replies|
  {
    hide Reachable, ScalarBackends, OnReply, OnlyAnswers, Later;
    if n <= |s.links[j].replies| {
      t := s;
      NothingHappens(s, j, sid);
    } else {
      var e := Answer(j, OK);
      var m := Apply(s, e);
      ReachStep(s, e);
      OneMoreAnswer(s, j);
      t := AnswerUpTo(m, j, n, sid);
      LaterStep(s, e, t, sid);
      OnlyAnswersTwice(s, m, t, j);
    }
  }

  lemma NothingHappens(s: System, j: nat, sid: nat)
    requires j < |s.links|
    ensures Later(s, s, sid) && OnlyAnswers(s, s, j)
  {
    assert Leads(s, [], s, sid);
  }

  lemma OnlyAnswersTwice(s: System, m: System, t: System, j: nat)
    requires OnlyAnswers(s, m, j) && OnlyAnswers(m, t, j)
    ensures OnlyAnswers(s, t, j)
  {
  }

  lemma OneMoreAnswer(s: System, j: nat)
    requires !s.crashed && ScalarBackends(s) && j < |s.links| && s.links[j].conn.alive
    requires |s.links[j].replies| < |s.links[j].conn.written|
    ensures var m := Apply(s, Answer(j, OK));
            && ScalarBackends(m) && OnlyAnswers(s, m, j) && !m.crashed
            && |m.links[j].replies| == |s.links[j].replies| + 1 && m.links[j].handed == s.links[j].handed
  {
    OkIsScalar();
    hide Grammar.IsScalar;
    var m := Apply(s, Answer(j, OK));
    forall i | 0 <= i < |m.links| ensures ScalarBackend(m.links[i]) {
      assert ScalarBackend(s.links[i]);
    }
  }

  lemma LaterTwice(s: System, m: System, t: System, sid: nat)
    requires Later(s, m, sid) && Later(m, t, sid)
    ensures Later(s, t, sid)
  {
    var events :| Leads(s, events, m, sid);
    LeadsOn(s, events, m, t, sid);
  }

  lemma {:induction false} LeadsOn(s: System, events: seq<Event>, m: System, t: System, sid: nat)
    requires Leads(s, events, m, sid) && Later(m, t, sid)
    ensures Later(s, t, sid)
    decreases |events|
  {
    if events != [] {
      hide Apply, Enabled, Later;
      LeadsOn(Apply(s, events[0]), events[1..], m, t, sid);
      LaterStep(s, events[0], t, sid);
    }
  }

  /** A request that waits on a connection that lives can get its text next, before anything that
      waits on another connection. */
  lemma AnswerNext(s: System, sid: nat, j: nat, r: nat) returns (t: System)
    requires Reachable(s) && !s.crashed && ScalarBackends(s)
    requires Waits(s, sid, j, r) && s.links[j].conn.alive
    ensures Later(s, t, sid) && Reachable(t) && !t.crashed && ScalarBackends(t) && OnlyAnswers(s, t, j)
    ensures Has(t, sid, j, r)
  {
    var n := Positions(s.links[j].conn.owners, sid)[r] + 1;
    EnoughWritten(s, j);
    hide Reachable, ScalarBackends, Later, Positions;
    var m := AnswerUpTo(s, j, n, sid);
    t := ReadAll(m, j, sid);
    LaterTwice(s, m, t, sid);
    OnlyAnswersTwice(s, m, t, j);
  }

  lemma EnoughWritten(s: System, j: nat)
    requires Reachable(s) && j < |s.links|
    ensures |s.links[j].conn.owners| == |s.links[j].conn.written|
  {
    hide Reachable, OverLink, Paired, Concat, Fragmentation.FeedAll;
    HandedToOwners(s, j);
  }

  lemma WaitsStill(s: System, t: System, sid: nat, i: nat, q: nat, j: nat)
    requires OnlyAnswers(s, t, j) && i != j && Waits(s, sid, i, q)
    ensures Waits(t, sid, i, q) && t.links[i].conn.alive == s.links[i].conn.alive
  {
    assert t.links[i] == s.links[i];
  }

  lemma SwapWith(s: System, sid: nat, i: nat, q: nat, j: nat, r: nat)
    requires Reachable(s) && !s.crashed && ScalarBackends(s) && i != j
    requires Waits(s, sid, i, q) && Waits(s, sid, j, r) && s.links[i].conn.alive && s.links[j].conn.alive
    requires Earlier(s, sid, i, q, j, r)
    ensures CanSwap(s, sid)
  {
    hide Reachable, ScalarBackends, Later, Waits, Has, Earlier, OnlyAnswers;
    var t := AnswerNext(s, sid, j, r);
    WaitsStill(s, t, sid, i, q, j);
    var u := AnswerNext(t, sid, i, q);
    assert Overtakes(s, sid, i, q, j, r, t, u);
  }

  /** One of two requests of a session on different links was sent first. */
  lemma EitherIsEarlier(s: System, sid: nat, i: nat, q: nat, j: nat, r: nat)
    requires Reachable(s) && sid in s.sessions && i != j && Waits(s, sid, i, q) && Waits(s, sid, j, r)
    ensures Earlier(s, sid, i, q, j, r) || Earlier(s, sid, j, r, i, q)
  {
    hide Reachable;
    SameNumber(s, sid, i);
    SameNumber(s, sid, j);
    var placed := s.sessions[sid].placed;
    assert placed[Positions(placed, Some(i))[q]] != placed[Positions(placed, Some(j))[r]];
  }

  /** With backends that answer with scalars: without another request some continuation gives a
      session the texts for two of its requests in the wrong order, exactly when the session
      stands in the queues of two connections that live. */
  lemma SwapExactly(s: System, sid: nat)
    requires Reachable(s) && !s.crashed && sid in s.sessions && ScalarBackends(s)
    ensures CanSwap(s, sid) <==> exists i: nat, j: nat :: i != j && Pends(s, i, sid) && Pends(s, j, sid)
  {
    hide Reachable, CanSwap, ScalarBackends, Waits;
    if CanSwap(s, sid) {
      SwapNeedsTwo(s, sid);
      var i: nat, j: nat :| i != j && i < |s.links| && j < |s.links|
        && s.links[i].conn.alive && s.links[j].conn.alive
        && (exists q: nat :: Waits(s, sid, i, q)) && (exists r: nat :: Waits(s, sid, j, r));
      WaitsInQueue(s, sid, i);
      WaitsInQueue(s, sid, j);
      assert Pends(s, i, sid) && Pends(s, j, sid);
    }
    if i: nat, j: nat :| i != j && Pends(s, i, sid) && Pends(s, j, sid) {
      WaitsInQueue(s, sid, i);
      WaitsInQueue(s, sid, j);
      var q: nat :| Waits(s, sid, i, q);
      var r: nat :| Waits(s, sid, j, r);
      EitherIsEarlier(s, sid, i, q, j, r);
      if Earlier(s, sid, i, q, j, r) {
        SwapWith(s, sid, i, q, j, r);
      } else {
        SwapWith(s, sid, j, r, i, q);
      }
    }
  }

  // ---- A run in which it can happen ----

  function Idle(): Link {
    Link(Conn(true, true, [], [], [], []), [], [], [], [])
  }

  function Holding(v: Text): Link {
    Link(Conn(true, true, [], [0], [v], [0]), [], [], [], [])
  }

  /** One session and two connections: nothing said yet, one request sent, two requests sent. */
  function Two(): System {
    System(map[0 := Session(false, 0, [], [], [], [], [])], [Idle(), Idle()], [], false)
  }

  function TwoAskedOne(v: Text): System {
    System(map[0 := Session(false, 1, [], [], [v], [v], [Some(0)])], [Holding(v), Idle()], [], false)
  }

  function TwoAskedBoth(v: Text, w: Text): System {
    System(map[0 := Session(false, 2, [], [], [v, w], [v, w], [Some(0), Some(1)])], [Holding(v), Holding(w)], [], false)
  }

  lemma TwoReachable()
    ensures Reachable(Two())
  {
    SomeRun([], INIT);
    hide Reachable;
    var s1 := Apply(INIT, Accept(0, 0));
    ReachStep(INIT, Accept(0, 0));
    var s2 := Apply(s1, AddConn(true));
    ReachStep(s1, AddConn(true));
    var s3 := Apply(s2, AddConn(true));
    ReachStep(s2, AddConn(true));
    var s4 := Apply(s3, Connected(0));
    ReachStep(s3, Connected(0));
    ReachStep(s4, Connected(1));
    assert Apply(s4, Connected(1)) == Two();
  }

  lemma SomeRun(events: seq<Event>, s: System)
    requires Run(events, s)
    ensures Reachable(s)
  {
  }

  lemma FirstRequest(v: Text, accept: (nat, nat) -> bool)
    requires IsMessage(v) && accept(0, 0)
    ensures Apply(Two(), Request(0, v, accept)) == TwoAskedOne(v)
  {
    hide IsMessage, Apply;
    assert Slot(2, 0, 0) == 0 && IdAt(0, 1) == 1;
    WholeRequest(Two(), 0, v, accept);
    var none: seq<nat>, no: seq<Text> := [], [];
    assert none + [0] == [0] && no + [v] == [v];
    assert Two().sessions[0].placed + [Some(0)] == [Some(0)];
  }

  lemma SecondRequest(v: Text, w: Text, accept: (nat, nat) -> bool)
    requires IsMessage(w) && accept(0, 0)
    ensures Apply(TwoAskedOne(v), Request(0, w, accept)) == TwoAskedBoth(v, w)
  {
    hide IsMessage, Apply;
    assert Slot(2, 1, 0) == 1 && IdAt(1, 1) == 2;
    WholeRequest(TwoAskedOne(v), 0, w, accept);
    var none: seq<nat>, no: seq<Text> := [], [];
    assert none + [0] == [0] && no + [w] == [w] && [v] + [w] == [v, w];
    assert TwoAskedOne(v).sessions[0].placed + [Some(1)] == [Some(0), Some(1)];
  }

  /** For any two requests that are one message each: sent over two connections, they are placed on
      one each, and can be answered in the wrong order. */
  lemma SwapIsReached(v: Text, w: Text)
    requires IsMessage(v) && IsMessage(w)
    ensures exists s :: Reachable(s) && !s.crashed && 0 in s.sessions && s.sessions[0].framed == [v, w]
              && |s.links| == 2 && CanSwap(s, 0)
  {
    hide IsMessage, Reachable, CanSwap, Apply;
    var accept := (j: nat, k: nat) => true;
    TwoReachable();
    FirstRequest(v, accept);
    ReachStep(Two(), Request(0, v, accept));
    SecondRequest(v, w, accept);
    ReachStep(TwoAskedOne(v), Request(0, w, accept));
    var s := TwoAskedBoth(v, w);
    assert Pends(s, 0, 0) && Pends(s, 1, 0);
    SwapExactly(s, 0);
  }
}
