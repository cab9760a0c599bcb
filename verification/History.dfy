/** The state of the proxy told from the events alone: what each event does, and what it does for
    good. */
module History {
  import opened Bytes
  import opened Dispatch
  import opened Exchange
  import opened Pairing
  import Fragmentation

  // ---- What the events say ----

  predicate Accepted(events: seq<Event>, sid: nat) {
    exists k :: 0 <= k < |events| && events[k].Accept? && events[k].sid == sid
  }

  /** The pieces in which the bytes of a client came. */
  function Chunks(events: seq<Event>, sid: nat): seq<Text> {
    if events == [] then []
    else
      var e := events[|events| - 1];
      Chunks(events[..|events| - 1], sid) + if e.Request? && e.sid == sid then [e.chunk] else []
  }

  /** For each connection, in the order of joining, whether its bufferevent could be made. */
  function Joined(events: seq<Event>): seq<bool> {
    if events == [] then []
    else
      var e := events[|events| - 1];
      Joined(events[..|events| - 1]) + if e.AddConn? then [e.alive] else []
  }

  /** What a backend has sent. */
  function Sayings(events: seq<Event>, i: nat): seq<Text> {
    if events == [] then []
    else
      var e := events[|events| - 1];
      Sayings(events[..|events| - 1], i) + if e.Answer? && e.link == i then [e.reply] else []
  }

  /** How many of its bytes came at a time. */
  function Counts(events: seq<Event>, i: nat): seq<nat> {
    if events == [] then []
    else
      var e := events[|events| - 1];
      Counts(events[..|events| - 1], i) + if e.Reply? && e.link == i then [e.count] else []
  }

  function Lengths(pieces: seq<Text>): (c: seq<nat>)
    ensures |c| == |pieces| && forall k :: 0 <= k < |c| ==> c[k] == |pieces[k]|
  {
    seq(|pieces|, k requires 0 <= k < |pieces| => |pieces[k]|)
  }

  // ---- What the state is ----

  ghost predicate SessionTold(events: seq<Event>, sid: nat, me: Session) {
    && (me.closing <==> Close(sid) in events) && me.pieces == Chunks(events, sid)
    && (me.pieces == [] ==> Accept(sid, me.ids) in events)
  }

  ghost predicate LinkTold(events: seq<Event>, i: nat, l: Link)
    requires i < |Joined(events)|
  {
    && (l.conn.alive <==> Joined(events)[i] && Lost(i) !in events)
    && (l.conn.connected <==> Connected(i) in events && Lost(i) !in events)
    && l.replies == Sayings(events, i)
  }

  ghost predicate Told(events: seq<Event>, s: System) {
    && (forall sid: nat :: sid in s.sessions <==> Accepted(events, sid))
    && (forall sid: nat :: sid in s.sessions ==> SessionTold(events, sid, s.sessions[sid]))
    && (forall sid: nat :: sid !in s.sessions ==> Close(sid) !in events && Chunks(events, sid) == [])
    && |s.links| == |Joined(events)|
    && (forall i: nat :: i < |s.links| ==> LinkTold(events, i, s.links[i]))
    && (forall i: nat :: i >= |s.links| ==> NotYet(events, i))
    && (!s.crashed ==> forall i: nat :: i < |s.links| ==> Lengths(s.links[i].pieces) == Counts(events, i))
  }

  /** Nothing is said of a connection before it is there. */
  ghost predicate NotYet(events: seq<Event>, i: nat) {
    Connected(i) !in events && Lost(i) !in events && Sayings(events, i) == [] && Counts(events, i) == []
  }

  // ---- What one event does ----

  /** The placing of requests leaves these alone. */
  predicate LinkKept(l: Link, l': Link) {
    && l'.conn.alive == l.conn.alive && l'.conn.connected == l.conn.connected
    && l'.replies == l.replies && l'.wire == l.wire && l'.pieces == l.pieces && l'.handed == l.handed
  }

  lemma {:induction false} PlaceAllLeaves(s: System, q: nat, segments: seq<Text>, accept: (nat, nat) -> bool, j: nat)
    requires q in s.sessions && j <= |segments|
    ensures var s' := PlaceAll(s, q, segments, accept, j);
            && s'.sessions.Keys == s.sessions.Keys && |s'.links| == |s.links| && s'.crashed == s.crashed
            && s'.given == s.given
            && (forall i :: 0 <= i < |s.links| ==> LinkKept(s.links[i], s'.links[i]))
            && (forall sid :: sid in s.sessions ==>
                  && s'.sessions[sid].closing == s.sessions[sid].closing
                  && s'.sessions[sid].pieces == s.sessions[sid].pieces
                  && s'.sessions[sid].delivered == s.sessions[sid].delivered
                  && (sid != q ==> s'.sessions[sid].ids == s.sessions[sid].ids))
    decreases |segments| - j
  {
    hide PlaceOne, Place;
    if j < |segments| {
      PlaceOneExactly(s, q, segments[j], Row(accept, j));
      PlaceAllLeaves(PlaceOne(s, q, segments[j], Row(accept, j)), q, segments, accept, j + 1);
    }
  }

  /** A session behind one event. */
  ghost predicate SessionStep(me: Session, me': Session, e: Event, sid: nat) {
    && (me'.closing <==> me.closing || e == Close(sid))
    && me'.pieces == (if e.Request? && e.sid == sid then me.pieces + [e.chunk] else me.pieces)
    && (me'.ids == me.ids || (e.Request? && e.sid == sid))
  }

  /** A connection behind one event. */
  ghost predicate LinkStep(l: Link, l': Link, e: Event, i: nat, crashed: bool) {
    && (l'.conn.alive <==> l.conn.alive && e != Lost(i))
    && (l'.conn.connected <==> (l.conn.connected || e == Connected(i)) && e != Lost(i))
    && l'.replies == (if e.Answer? && e.link == i then l.replies + [e.reply] else l.replies)
    && (!crashed ==>
          Lengths(l'.pieces) == if e.Reply? && e.link == i then Lengths(l.pieces) + [e.count] else Lengths(l.pieces))
  }

  ghost predicate StepTold(s: System, s': System, e: Event) {
    && s'.sessions.Keys == s.sessions.Keys + (if e.Accept? then {e.sid} else {})
    && (forall sid :: sid in s.sessions ==> SessionStep(s.sessions[sid], s'.sessions[sid], e, sid))
    && (e.Accept? ==>
          var me := s'.sessions[e.sid];
          !me.closing && me.pieces == [] && me.ids == e.firstId)
    && |s'.links| == |s.links| + (if e.AddConn? then 1 else 0)
    && (forall i :: 0 <= i < |s.links| ==> LinkStep(s.links[i], s'.links[i], e, i, s'.crashed))
    && (e.AddConn? ==>
          var l := s'.links[|s.links|];
          l.conn.alive == e.alive && !l.conn.connected && l.replies == [] && l.pieces == [])
  }

  lemma LengthsAppend(pieces: seq<Text>, piece: Text)
    ensures Lengths(pieces + [piece]) == Lengths(pieces) + [|piece|]
  {
  }

  /** The placing behind the new piece of a session. */
  lemma LeavesTold(s: System, fed: System, s': System, e: Event)
    requires e.Request? && e.sid in s.sessions && fed.sessions.Keys == s.sessions.Keys && fed.links == s.links
    requires forall sid :: sid in s.sessions ==> SessionStep(s.sessions[sid], fed.sessions[sid], e, sid)
    requires s'.sessions.Keys == fed.sessions.Keys && |s'.links| == |fed.links|
    requires forall i :: 0 <= i < |fed.links| ==> LinkKept(fed.links[i], s'.links[i])
    requires forall sid :: sid in fed.sessions ==>
               && s'.sessions[sid].closing == fed.sessions[sid].closing
               && s'.sessions[sid].pieces == fed.sessions[sid].pieces
               && (sid != e.sid ==> s'.sessions[sid].ids == fed.sessions[sid].ids)
    ensures StepTold(s, s', e)
  {
    hide LinkKept, LinkStep;
    forall i | 0 <= i < |s.links| ensures LinkStep(s.links[i], s'.links[i], e, i, s'.crashed) {
      KeptIsStep(s.links[i], s'.links[i], e, i, s'.crashed);
    }
  }

  lemma RequestTold(s: System, e: Event)
    requires e.Request? && Enabled(s, e)
    ensures StepTold(s, Apply(s, e), e)
  {
    hide Fragmentation.Read, PlaceAll, LinkKept, StepTold;
    var me := s.sessions[e.sid];
    var f := Fragmentation.Read(me.input + e.chunk);
    var fed := s.(sessions := s.sessions[e.sid := me.(input := f.rest, pieces := me.pieces + [e.chunk])]);
    var s' := PlaceAll(fed, e.sid, f.segments, e.accept, 0);
    assert Apply(s, e) == s';
    hide Apply, Enabled;
    PlaceAllLeaves(fed, e.sid, f.segments, e.accept, 0);
    LeavesTold(s, fed, s', e);
  }

  lemma KeptIsStep(l: Link, l': Link, e: Event, i: nat, crashed: bool)
    requires LinkKept(l, l') && e.Request?
    ensures LinkStep(l, l', e, i, crashed)
  {
    hide Lengths;
  }

  /** One link changes by a read. */
  lemma HandedTold(s: System, s': System, e: Event, l': Link)
    requires e.Reply? && e.link < |s.links| && s'.links == s.links[e.link := l']
    requires LinkStep(s.links[e.link], l', e, e.link, s'.crashed)
    requires s'.sessions.Keys == s.sessions.Keys
    requires forall q :: q in s.sessions ==>
               && s'.sessions[q].closing == s.sessions[q].closing && s'.sessions[q].pieces == s.sessions[q].pieces
               && s'.sessions[q].ids == s.sessions[q].ids
    ensures StepTold(s, s', e)
  {
    hide Lengths;
  }

  lemma ReadIsStep(l: Link, e: Event, conn: Conn<nat>, handed: seq<Text>)
    requires e.Reply? && e.count <= |l.wire| && conn.alive == l.conn.alive && conn.connected == l.conn.connected
    ensures var l' := Link(conn, l.replies, l.wire[e.count..], l.pieces + [l.wire[..e.count]], handed);
            LinkStep(l, l', e, e.link, false)
  {
    LengthsAppend(l.pieces, l.wire[..e.count]);
    hide Lengths;
  }

  lemma ReplyTold(s: System, e: Event)
    requires e.Reply? && Enabled(s, e)
    ensures StepTold(s, Apply(s, e), e)
  {
    var l := s.links[e.link];
    var c := l.conn;
    var f := Fragmentation.Read(c.input + l.wire[..e.count]);
    hide Fragmentation.Read, Deliver, Entries, PickTaken, LinkStep, StepTold;
    var s' := OnReply(s, e.link, e.count, e.takes);
    assert Apply(s, e) == s';
    hide Apply, Enabled;
    if |f.segments| <= |c.fifo| {
      DeliverExactly(s.sessions, c.fifo, f.segments, e.takes, |f.segments|);
      ReadIsStep(l, e, c.(input := f.rest, fifo := c.fifo[|f.segments|..]), l.handed + f.segments);
      HandedTold(s, s', e, s'.links[e.link]);
    } else {
      assert LinkStep(l, l, e, e.link, true) by { CrashIsStep(l, e); }
      HandedTold(s, s', e, l);
    }
  }

  lemma CrashIsStep(l: Link, e: Event)
    requires e.Reply?
    ensures LinkStep(l, l, e, e.link, true)
  {
  }

  /** What each event does to the flags and the histories. */
  lemma StepExactly(s: System, e: Event)
    requires Enabled(s, e)
    ensures StepTold(s, Apply(s, e), e)
  {
    if e.Request? {
      RequestTold(s, e);
    } else if e.Reply? {
      ReplyTold(s, e);
    } else {
      hide Lengths;
    }
  }

  // ---- Runs ----

  lemma LastForSession(before: seq<Event>, e: Event, sid: nat)
    ensures var events := before + [e];
            && Chunks(events, sid)
               == (if e.Request? && e.sid == sid then Chunks(before, sid) + [e.chunk] else Chunks(before, sid))
            && (Accepted(events, sid) <==> Accepted(before, sid) || (e.Accept? && e.sid == sid))
            && (Close(sid) in events <==> Close(sid) in before || e == Close(sid))
            && (forall first: nat :: Accept(sid, first) in before || e == Accept(sid, first) ==>
                  Accept(sid, first) in events)
  {
    var events := before + [e];
    assert events[..|events| - 1] == before && events[|events| - 1] == e;
    if k :| 0 <= k < |before| && before[k].Accept? && before[k].sid == sid {
      assert events[k] == before[k];
    }
    if e.Accept? && e.sid == sid {
      assert events[|before|] == e;
    }
  }

  lemma LastForLink(before: seq<Event>, e: Event, i: nat)
    ensures var events := before + [e];
            && Joined(events) == (if e.AddConn? then Joined(before) + [e.alive] else Joined(before))
            && Sayings(events, i)
               == (if e.Answer? && e.link == i then Sayings(before, i) + [e.reply] else Sayings(before, i))
            && Counts(events, i)
               == (if e.Reply? && e.link == i then Counts(before, i) + [e.count] else Counts(before, i))
            && (Connected(i) in events <==> Connected(i) in before || e == Connected(i))
            && (Lost(i) in events <==> Lost(i) in before || e == Lost(i))
  {
    var events := before + [e];
    assert events[..|events| - 1] == before && events[|events| - 1] == e;
  }

  lemma SessionsNamed(s: System, e: Event)
    requires Enabled(s, e)
    ensures e.Close? || e.Request? ==> e.sid in s.sessions
    ensures e.Accept? ==> e.sid !in s.sessions
    ensures e.Connected? || e.Lost? || e.Answer? || e.Reply? ==> e.link < |s.links| && s.links[e.link].conn.alive
    ensures !s.crashed
  {
  }

  lemma SessionsToldStep(before: seq<Event>, p: System, e: Event, s: System)
    requires Told(before, p) && Enabled(p, e) && StepTold(p, s, e)
    ensures forall sid: nat :: sid in s.sessions <==> Accepted(before + [e], sid)
    ensures forall sid: nat :: sid in s.sessions ==> SessionTold(before + [e], sid, s.sessions[sid])
    ensures forall sid: nat :: sid !in s.sessions ==> Close(sid) !in before + [e] && Chunks(before + [e], sid) == []
  {
    SessionsNamed(p, e);
    hide Enabled, Chunks, Joined, Sayings, Counts, Accepted, LinkStep, LinkTold, NotYet, Lengths;
    var events := before + [e];
    forall sid: nat
      ensures sid in s.sessions <==> Accepted(events, sid)
      ensures sid in s.sessions ==> SessionTold(events, sid, s.sessions[sid])
      ensures sid !in s.sessions ==> Close(sid) !in events && Chunks(events, sid) == []
    {
      LastForSession(before, e, sid);
      if sid in p.sessions {
        assert SessionStep(p.sessions[sid], s.sessions[sid], e, sid) && SessionTold(before, sid, p.sessions[sid]);
      }
    }
  }

  lemma LinkOnce(before: seq<Event>, e: Event, i: nat, l: Link, l': Link, crashed: bool)
    requires i < |Joined(before)| && LinkTold(before, i, l) && LinkStep(l, l', e, i, crashed)
    requires e == Connected(i) ==> l.conn.alive
    ensures i < |Joined(before + [e])| && LinkTold(before + [e], i, l')
  {
    LastForLink(before, e, i);
    hide Joined, Sayings, Counts;
  }

  lemma NewLinkTold(before: seq<Event>, e: Event, i: nat, l: Link)
    requires e.AddConn? && i == |Joined(before)| && NotYet(before, i)
    requires l.conn.alive == e.alive && !l.conn.connected && l.replies == [] && l.pieces == []
    ensures i < |Joined(before + [e])| && LinkTold(before + [e], i, l)
    ensures Lengths(l.pieces) == Counts(before + [e], i)
  {
    LastForLink(before, e, i);
    hide Joined, Sayings, Counts;
    assert Lengths(l.pieces) == [];
  }

  lemma StillNotYet(before: seq<Event>, e: Event, i: nat)
    requires NotYet(before, i)
    requires e.Connected? || e.Lost? || e.Answer? || e.Reply? ==> e.link != i
    ensures NotYet(before + [e], i)
  {
    LastForLink(before, e, i);
    hide Joined, Sayings, Counts;
  }

  lemma LinkToldStep(before: seq<Event>, p: System, e: Event, s: System, i: nat)
    requires Told(before, p) && Enabled(p, e) && StepTold(p, s, e)
    ensures |s.links| == |Joined(before + [e])|
    ensures i < |s.links| ==> LinkTold(before + [e], i, s.links[i])
    ensures i < |s.links| && !s.crashed ==> Lengths(s.links[i].pieces) == Counts(before + [e], i)
    ensures i >= |s.links| ==> NotYet(before + [e], i)
  {
    SessionsNamed(p, e);
    LastForLink(before, e, i);
    hide Enabled, Chunks, Joined, Sayings, Counts, Accepted, SessionStep, SessionTold, LinkTold, NotYet, Lengths;
    if i < |p.links| {
      LinkOnce(before, e, i, p.links[i], s.links[i], s.crashed);
    } else if i < |s.links| {
      NewLinkTold(before, e, i, s.links[i]);
    } else {
      StillNotYet(before, e, i);
    }
  }

  /** In every run: there are the sessions that were accepted, and one is closing exactly if its close
      event came; the pieces of its bytes are those of its requests, in order, and before the first
      its counter is what it was accepted with. There are the
      connections that joined; one lives exactly if it could be made and was not lost, and is
      connected exactly if its event came and it was not lost; the replies are what its backend
      has sent, and they came in pieces of the lengths of the reads. */
  lemma {:induction false} RunTold(events: seq<Event>, s: System)
    requires Run(events, s)
    ensures Told(events, s)
    decreases |events|
  {
    hide Told, Apply, Enabled;
    if events == [] {
      NothingTold();
    } else {
      var before, last := events[..|events| - 1], events[|events| - 1];
      var p :| Run(before, p) && Enabled(p, last) && s == Apply(p, last);
      RunTold(before, p);
      ToldStep(before, p, last);
      assert events == before + [last];
    }
  }

  lemma NothingTold()
    ensures Told([], INIT)
  {
  }

  lemma ToldStep(before: seq<Event>, p: System, e: Event)
    requires Told(before, p) && Enabled(p, e)
    ensures Told(before + [e], Apply(p, e))
  {
    var s, events := Apply(p, e), before + [e];
    StepExactly(p, e);
    hide *;
    SessionsToldStep(before, p, e, s);
    forall i: nat
      ensures |s.links| == |Joined(events)|
      ensures i < |s.links| ==> LinkTold(events, i, s.links[i])
      ensures i < |s.links| && !s.crashed ==> Lengths(s.links[i].pieces) == Counts(events, i)
      ensures i >= |s.links| ==> NotYet(events, i)
    {
      LinkToldStep(before, p, e, s, i);
    }
    LinkToldStep(before, p, e, s, 0);
    ToldAgain(events, s);
  }

  lemma ToldAgain(events: seq<Event>, s: System)
    requires forall sid: nat :: sid in s.sessions <==> Accepted(events, sid)
    requires forall sid: nat :: sid in s.sessions ==> SessionTold(events, sid, s.sessions[sid])
    requires forall sid: nat :: sid !in s.sessions ==> Close(sid) !in events && Chunks(events, sid) == []
    requires |s.links| == |Joined(events)|
    requires forall i: nat :: i < |s.links| ==> LinkTold(events, i, s.links[i])
    requires forall i: nat :: i < |s.links| && !s.crashed ==> Lengths(s.links[i].pieces) == Counts(events, i)
    requires forall i: nat :: i >= |s.links| ==> NotYet(events, i)
    ensures Told(events, s)
  {
    hide SessionTold, LinkTold, NotYet, Chunks, Joined, Sayings, Counts, Accepted, Lengths;
  }

  // ---- What holds for good ----

  lemma {:induction false} OneState(events: seq<Event>, s: System, t: System)
    requires Run(events, s) && Run(events, t)
    ensures s == t
    decreases |events|
  {
    if events != [] {
      hide Apply, Enabled;
      var before, last := events[..|events| - 1], events[|events| - 1];
      var p :| Run(before, p) && Enabled(p, last) && s == Apply(p, last);
      var q :| Run(before, q) && Enabled(q, last) && t == Apply(q, last);
      OneState(before, p, q);
    }
  }

  lemma LastStep(events: seq<Event>, later: seq<Event>, t: System) returns (p: System)
    requires later != [] && Run(events + later, t)
    ensures var n := |later| - 1;
            Run(events + later[..n], p) && Enabled(p, later[n]) && t == Apply(p, later[n])
  {
    hide Apply, Enabled;
    var all, n := events + later, |later| - 1;
    assert all[..|all| - 1] == events + later[..n] && all[|all| - 1] == later[n];
    p :| Run(all[..|all| - 1], p) && Enabled(p, all[|all| - 1]) && t == Apply(p, all[|all| - 1]);
  }

  /** The placing leaves a connection alone that is not connected or does not live. */
  lemma {:induction false} PlaceAllOnlyUp(s: System, q: nat, segments: seq<Text>,
                                          accept: (nat, nat) -> bool, j: nat, i: nat)
    requires q in s.sessions && j <= |segments| && i < |s.links|
    requires !s.links[i].conn.connected || !s.links[i].conn.alive
    ensures PlaceAll(s, q, segments, accept, j).links[i] == s.links[i]
    decreases |segments| - j
  {
    hide PlaceOne, Place;
    if j < |segments| {
      PlaceOneExactly(s, q, segments[j], Row(accept, j));
      SlotIsUp(Conns(s.links), s.sessions[q].ids, q, segments[j], Row(accept, j));
      PlaceAllOnlyUp(PlaceOne(s, q, segments[j], Row(accept, j)), q, segments, accept, j + 1, i);
    }
  }

  /** What the proxy does with a closing session, with a connection that is not up, and with any
      connection but on a request. */
  lemma StepLeaves(s: System, e: Event)
    requires Enabled(s, e)
    ensures var s' := Apply(s, e);
            && (forall sid :: sid in s.sessions && s.sessions[sid].closing ==>
                  sid in s'.sessions && s'.sessions[sid].delivered == s.sessions[sid].delivered)
            && (forall i :: 0 <= i < |s.links| && !s.links[i].conn.alive ==>
                  i < |s'.links| && s'.links[i].conn.written == s.links[i].conn.written
                  && s'.links[i].handed == s.links[i].handed && s'.links[i].replies == s.links[i].replies)
            && (forall i :: 0 <= i < |s.links| && (!e.Request? || !s.links[i].conn.connected) ==>
                  i < |s'.links| && s'.links[i].conn.written == s.links[i].conn.written)
  {
    if e.Request? {
      RequestLeaves(s, e);
    } else if e.Reply? {
      ReplyLeaves(s, e);
    }
  }

  lemma RequestLeaves(s: System, e: Event)
    requires e.Request? && Enabled(s, e)
    ensures var s' := Apply(s, e);
            && s'.sessions.Keys == s.sessions.Keys && |s'.links| == |s.links|
            && (forall sid :: sid in s.sessions ==> s'.sessions[sid].delivered == s.sessions[sid].delivered)
            && forall i :: 0 <= i < |s.links| && !(s.links[i].conn.connected && s.links[i].conn.alive) ==>
                 s'.links[i] == s.links[i]
  {
    hide Fragmentation.Read, PlaceAll;
    var me := s.sessions[e.sid];
    var f := Fragmentation.Read(me.input + e.chunk);
    var fed := s.(sessions := s.sessions[e.sid := me.(input := f.rest, pieces := me.pieces + [e.chunk])]);
    PlaceAllLeaves(fed, e.sid, f.segments, e.accept, 0);
    var s' := PlaceAll(fed, e.sid, f.segments, e.accept, 0);
    assert Apply(s, e) == s';
    hide Apply, Enabled, LinkKept;
    forall sid | sid in s.sessions ensures s'.sessions[sid].delivered == s.sessions[sid].delivered {
      assert sid in fed.sessions;
    }
    forall i | 0 <= i < |s.links| && !(s.links[i].conn.connected && s.links[i].conn.alive)
      ensures s'.links[i] == s.links[i]
    {
      PlaceAllOnlyUp(fed, e.sid, f.segments, e.accept, 0, i);
    }
  }

  lemma ReplyLeaves(s: System, e: Event)
    requires e.Reply? && Enabled(s, e)
    ensures var s' := Apply(s, e);
            && s'.sessions.Keys == s.sessions.Keys && |s'.links| == |s.links|
            && (forall sid :: sid in s.sessions && s.sessions[sid].closing ==>
                  s'.sessions[sid].delivered == s.sessions[sid].delivered)
            && forall i :: 0 <= i < |s.links| ==>
                 s'.links[i].conn.written == s.links[i].conn.written
                 && (i != e.link ==> s'.links[i] == s.links[i])
  {
    hide Fragmentation.Read, Deliver, Entries, PickTaken;
    var c := s.links[e.link].conn;
    var f := Fragmentation.Read(c.input + s.links[e.link].wire[..e.count]);
    if |f.segments| <= |c.fifo| {
      DeliverExactly(s.sessions, c.fifo, f.segments, e.takes, |f.segments|);
      forall sid | sid in s.sessions && s.sessions[sid].closing
        ensures s.sessions[sid].delivered + [] == s.sessions[sid].delivered
      {
      }
    }
  }

  /** Behind its close event a client is sent nothing more, whatever comes. */
  lemma {:induction false} CloseIsFinal(events: seq<Event>, s: System, later: seq<Event>, t: System, sid: nat)
    requires Run(events, s) && Run(events + later, t) && Close(sid) in events
    ensures sid in s.sessions && sid in t.sessions && t.sessions[sid].delivered == s.sessions[sid].delivered
    decreases |later|
  {
    hide Apply, Enabled, Run, SessionTold, LinkTold, NotYet, Chunks, Counts, Sayings, Joined;
    RunTold(events, s);
    assert sid in s.sessions;
    if later == [] {
      assert events + later == events;
      OneState(events, s, t);
    } else {
      var n := |later| - 1;
      var p := LastStep(events, later, t);
      CloseIsFinal(events, s, later[..n], p, sid);
      ClosingMeans(events + later[..n], p, sid);
      StepLeaves(p, later[n]);
    }
  }

  lemma ClosingMeans(events: seq<Event>, s: System, sid: nat)
    requires Run(events, s) && sid in s.sessions
    ensures s.sessions[sid].closing <==> Close(sid) in events
  {
    hide Apply, Enabled, Run, LinkTold, NotYet, Chunks, Counts, Sayings, Joined, Accepted;
    RunTold(events, s);
    assert SessionTold(events, sid, s.sessions[sid]);
  }

  /** Behind its loss a connection is written no request, and nothing is handed on over it. */
  lemma {:induction false} LostIsFinal(events: seq<Event>, s: System, later: seq<Event>, t: System, i: nat)
    requires Run(events, s) && Run(events + later, t) && Lost(i) in events
    ensures i < |s.links| && i < |t.links| && !t.links[i].conn.alive
    ensures t.links[i].conn.written == s.links[i].conn.written && t.links[i].handed == s.links[i].handed
    decreases |later|
  {
    hide Apply, Enabled, Run;
    LostThen(events, [], s, i);
    LostThen(events, later, t, i);
    assert events + [] == events;
    if later == [] {
      assert events + later == events;
      OneState(events, s, t);
    } else {
      var n := |later| - 1;
      var p := LastStep(events, later, t);
      LostIsFinal(events, s, later[..n], p, i);
      StepLeaves(p, later[n]);
    }
  }

  lemma LostThen(events: seq<Event>, later: seq<Event>, p: System, i: nat)
    requires Run(events + later, p) && Lost(i) in events
    ensures i < |p.links| && !p.links[i].conn.alive
  {
    hide Apply, Enabled, Run, SessionTold, Chunks, Counts, Sayings, Joined, Accepted;
    var all := events + later;
    RunTold(all, p);
    assert Lost(i) in all;
    assert i < |p.links| by { assert i >= |p.links| ==> NotYet(all, i); }
    assert LinkTold(all, i, p.links[i]);
  }

  /** A connection is written something only by a request, and only when its connected event has come
      and it has not been lost. */
  lemma WrittenWhenConnected(events: seq<Event>, s: System, e: Event, i: nat)
    requires Run(events, s) && Enabled(s, e) && i < |s.links|
    requires |Apply(s, e).links| <= i || Apply(s, e).links[i].conn.written != s.links[i].conn.written
    ensures e.Request? && Connected(i) in events && Lost(i) !in events
  {
    RunTold(events, s);
    StepLeaves(s, e);
    hide Apply, Enabled, Run, SessionTold, Chunks, Counts, Sayings, Accepted, NotYet;
    assert LinkTold(events, i, s.links[i]);
  }

  /** What becomes of the texts of one read: each goes to the session in front, and is dropped exactly
      if that has had its close event, and otherwise refused exactly if the write fails. */
  lemma ReplyOutcomes(events: seq<Event>, s: System, i: nat, count: nat, takes: nat -> bool)
    requires Run(events, s) && Enabled(s, Reply(i, count, takes))
    requires !OnReply(s, i, count, takes).crashed
    ensures var given, fifo := OnReply(s, i, count, takes).given, s.links[i].conn.fifo;
            var f := Fragmentation.Read(s.links[i].conn.input + s.links[i].wire[..count]);
            && |given| == |s.given| + |f.segments| && |f.segments| <= |fifo|
            && given[..|s.given|] == s.given
            && forall k :: 0 <= k < |f.segments| ==>
                 given[|s.given| + k]
                 == Given(i, fifo[k], f.segments[k],
                          if Close(fifo[k]) in events then Dropped else if takes(k) then Sent else Refused)
  {
    hide Fragmentation.Read, Run, Apply, OnReply, OutcomeOf;
    var fifo := s.links[i].conn.fifo;
    var f := Fragmentation.Read(s.links[i].conn.input + s.links[i].wire[..count]);
    WaitingAreSessions(events, s, i);
    GivenGrows(s, i, count, takes);
    hide Entries;
    forall k | 0 <= k < |f.segments|
      ensures OutcomeOf(s.sessions, fifo[k], takes(k))
              == if Close(fifo[k]) in events then Dropped else if takes(k) then Sent else Refused
    {
      OutcomeMeans(events, s, fifo[k], takes(k));
    }
  }

  lemma OutcomeMeans(events: seq<Event>, s: System, sid: nat, ok: bool)
    requires Run(events, s) && sid in s.sessions
    ensures OutcomeOf(s.sessions, sid, ok) == if Close(sid) in events then Dropped else if ok then Sent else Refused
  {
    hide Run;
    ClosingMeans(events, s, sid);
  }

  lemma GivenGrows(s: System, i: nat, count: nat, takes: nat -> bool)
    requires i < |s.links| && count <= |s.links[i].wire| && !OnReply(s, i, count, takes).crashed
    ensures var given, fifo := OnReply(s, i, count, takes).given, s.links[i].conn.fifo;
            var f := Fragmentation.Read(s.links[i].conn.input + s.links[i].wire[..count]);
            && |given| == |s.given| + |f.segments| && |f.segments| <= |fifo|
            && given[..|s.given|] == s.given
            && forall k :: 0 <= k < |f.segments| ==>
                 given[|s.given| + k] == Given(i, fifo[k], f.segments[k], OutcomeOf(s.sessions, fifo[k], takes(k)))
  {
    hide Fragmentation.Read, Deliver, OutcomeOf;
    var fifo := s.links[i].conn.fifo;
    var f := Fragmentation.Read(s.links[i].conn.input + s.links[i].wire[..count]);
    var entries := Entries(s.sessions, i, fifo, f.segments, takes, |f.segments|);
    assert OnReply(s, i, count, takes).given == s.given + entries;
    hide Entries, OnReply;
    Behind(s.given, entries);
  }

  lemma Behind(given: seq<Given>, entries: seq<Given>)
    ensures (given + entries)[..|given|] == given
    ensures forall k :: 0 <= k < |entries| ==> (given + entries)[|given| + k] == entries[k]
  {
  }

  lemma WaitingAreSessions(events: seq<Event>, s: System, i: nat)
    requires Run(events, s) && i < |s.links|
    ensures forall k :: 0 <= k < |s.links[i].conn.fifo| ==> s.links[i].conn.fifo[k] in s.sessions
  {
    hide Run;
    RunKeeps(events, s);
    FifoKnown(s, i);
  }

  /** Every write is taken. */
  ghost predicate AllTake(events: seq<Event>) {
    forall k :: 0 <= k < |events| && events[k].Reply? ==> forall n: nat :: events[k].takes(n)
  }

  /** If the bufferevents take every write, no text is ever refused. */
  lemma {:induction false} TakenThenSent(events: seq<Event>, s: System)
    requires Run(events, s) && AllTake(events)
    ensures forall k :: 0 <= k < |s.given| ==> s.given[k].outcome != Refused
    decreases |events|
  {
    if events != [] {
      hide Apply, Enabled;
      var before, last := events[..|events| - 1], events[|events| - 1];
      var p :| Run(before, p) && Enabled(p, last) && s == Apply(p, last);
      assert AllTake(before) by { assert forall k :: 0 <= k < |before| ==> before[k] == events[k]; }
      TakenThenSent(before, p);
      assert last.Reply? ==> forall n: nat :: last.takes(n);
      hide Run, AllTake;
      GivenStep(before, p, last);
      assert forall k :: 0 <= k < |p.given| ==> s.given[..|p.given|][k] == s.given[k];
    }
  }

  lemma GivenStep(events: seq<Event>, s: System, e: Event)
    requires Run(events, s) && Enabled(s, e) && (e.Reply? ==> forall n: nat :: e.takes(n))
    ensures var given := Apply(s, e).given;
            && |s.given| <= |given| && given[..|s.given|] == s.given
            && forall k :: |s.given| <= k < |given| ==> given[k].outcome != Refused
  {
    hide Run, PlaceAll, Fragmentation.Read, OnReply;
    assert s.given[..|s.given|] == s.given;
    if e.Reply? {
      if OnReply(s, e.link, e.count, e.takes).crashed {
        CrashGives(s, e.link, e.count, e.takes);
      } else {
        ReplyOutcomes(events, s, e.link, e.count, e.takes);
        var given, n := OnReply(s, e.link, e.count, e.takes).given, |s.given|;
        forall k | n <= k < |given| ensures given[k].outcome != Refused {
          var m: nat := k - n;
          assert given[n + m] == given[k] && e.takes(m);
        }
      }
    } else if e.Request? {
      var me := s.sessions[e.sid];
      var f := Fragmentation.Read(me.input + e.chunk);
      var fed := s.(sessions := s.sessions[e.sid := me.(input := f.rest, pieces := me.pieces + [e.chunk])]);
      PlaceAllLeaves(fed, e.sid, f.segments, e.accept, 0);
    }
  }

  lemma CrashGives(s: System, i: nat, count: nat, takes: nat -> bool)
    requires i < |s.links| && count <= |s.links[i].wire| && !s.crashed && OnReply(s, i, count, takes).crashed
    ensures OnReply(s, i, count, takes).given == s.given
  {
    hide Fragmentation.Read, Deliver, Entries;
  }
}
