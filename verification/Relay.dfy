/** The objects of one loop thread: `TcpSession`, `redis_tcp_client` with what it inherits from
    `TcpClient`, and `loop_thread`. */
module Relay {
  import opened Bytes
  import opened Framing
  import opened Fragmentation
  import RespParser
  import opened Dispatch
  import opened Exchange
  import opened Tasks

  /** The part the two `onRead` methods share: parse what the buffer holds, with a callback. */
  method Frame(input: Text, after: Text) returns (consumed: nat, segments: seq<Text>)
    requires RespParser.Slack(input + after, |input|)
    ensures consumed <= |input|
    ensures Feed(segments, input[consumed..]) == Read(input)
  {
    var mem := input + after;
    RespParser.SeenIsRest(mem, |input|, 0);
    assert RespParser.Rest(mem, |input|, 0) == input;
    RespParser.SlicesOfRest(mem, |input|, 0);
    hide RespParser.Seen, Resp, RespParser.Slices, Segments;
    var r, texts, parses, depth, calls := RespParser.ProcessResp(mem, |input|, true, 0);
    return r.consumed, texts;
  }

  /** Truncation to `unsigned short` and to `uint32_t`. */
  function Wrap16(x: int): nat {
    x % U16
  }

  function Wrap32(x: int): (r: nat)
    ensures r < U32
  {
    x % U32
  }

  /** The 16-bit counter of the retry loop in front of probe `k`. */
  function RetryAt(n: nat, k: nat): nat
    requires k < Probes(n)
  {
    if Probes(n) - k == U16 then 0 else Probes(n) - k
  }

  lemma RetryCount(n: nat, k: nat)
    ensures RetryAt(n, 0) == Wrap16(Wrap16(n) + 1)
    ensures k < Probes(n) ==>
              var next := Wrap16(RetryAt(n, k) - 1);
              if k + 1 == Probes(n) then next == 0 else next == RetryAt(n, k + 1) && next != 0
  {
  }

  lemma NextId(start: nat, k: nat)
    ensures Wrap32(IdAt(start, k) + 1) == IdAt(start, k + 1)
    ensures start < U32 ==> IdAt(start, 0) == start
  {
  }

  /** One probe of the search for a connection. */
  lemma Probe<S>(conns: seq<Conn<S>>, g: nat, who: S, segment: Text, accept: nat -> bool, k: nat)
    requires conns != [] && k < Probes(|conns|) && Search(conns, g, accept, 0) == Search(conns, g, accept, k)
    ensures var n, p := |conns|, Place(conns, g, who, segment, accept);
            var i := Pick(IdAt(g, k), n);
            if conns[i].connected && conns[i].alive && accept(k) then
              p.conns == conns[i := Hand(conns[i], who, segment)] && p.ids == IdAt(g, k + 1)
            else
              && Search(conns, g, accept, 0) == Search(conns, g, accept, k + 1)
              && (k + 1 == Probes(n) ==> p.conns == conns && p.ids == IdAt(g, k + 1))
  {
    var c := conns[Slot(|conns|, g, k)];
    assert Takes(conns, g, accept, k) == (c.connected && c.alive && accept(k));
  }

  /** `src/tcp_session.cpp`, `include/tcp_session.hpp`. */
  class TcpSession {
    const fd: int
    var isClosing: bool
    var hasBev: bool
    var ids: nat              // _sIdGenerater; the constructor leaves it as it is
    var input: Text           // the input side of the bufferevent
    var delivered: seq<Text>  // what was written to the client, text by text

    /** The constructor and `init`; `made` says whether the bufferevent could be made. */
    constructor (fd: int, ids: nat, made: bool)
      requires ids < U32
      ensures this.fd == fd && !isClosing && hasBev == made && this.ids == ids && input == [] && delivered == []
    {
      this.fd, this.ids := fd, ids;
      isClosing, hasBev := false, made;
      input, delivered := [], [];
    }

    /** `answer` is what `bufferevent_write` says. */
    method Send(data: Text, answer: bool) returns (ok: bool)
      modifies this`delivered
      ensures ok == (hasBev && !isClosing && answer)
      ensures delivered == if ok then old(delivered) + [data] else old(delivered)
    {
      if !hasBev || isClosing {
        return false;
      }
      ok := answer;
      if ok {
        delivered := delivered + [data];
      }
    }

    /** One probe: a connection that is connected and takes the text gets this session queued. */
    method Offer(conn: RedisClient, segment: Text, answer: bool) returns (ok: bool)
      modifies conn
      ensures ok == (old(conn.isConnected) && old(conn.hasBev) && !old(conn.isClosing) && answer)
      ensures conn.Value() == if ok then Hand(old(conn.Value()), this, segment) else old(conn.Value())
    {
      ok := false;
      if conn.isConnected {
        ok := conn.Send(segment, answer);
        if ok {
          conn.Queue(this);
        }
      }
    }

    /** The same, where `before` are all the connections. */
    method OfferAt(conns: seq<RedisClient>, i: nat, segment: Text, answer: bool, ghost before: seq<Conn<TcpSession>>)
      returns (ok: bool)
      requires Distinct(conns) && i < |conns|
      requires |before| == |conns| && forall j :: 0 <= j < |conns| ==> conns[j].Value() == before[j]
      modifies conns[i]
      ensures ok == (before[i].connected && before[i].alive && answer)
      ensures var after := if ok then before[i := Hand(before[i], this, segment)] else before;
              forall j :: 0 <= j < |conns| ==> conns[j].Value() == after[j]
    {
      ok := Offer(conns[i], segment, answer);
    }

    /** The retry loop for one framed request, where `accept(k)` is what the bufferevent answers
        at probe `k` and `before` are the connections. */
    method Retry(conns: seq<RedisClient>, segment: Text, accept: nat -> bool, ghost before: seq<Conn<TcpSession>>)
      requires conns != [] && Distinct(conns) && ids < U32
      requires |before| == |conns| && forall i :: 0 <= i < |conns| ==> conns[i].Value() == before[i]
      modifies this`ids, conns
      ensures var p := Place(before, old(ids), this, segment, accept);
              ids == p.ids && forall i :: 0 <= i < |conns| ==> conns[i].Value() == p.conns[i]
    {
      hide *;
      var n := |conns|;
      ghost var start, p := ids, Place(before, ids, this, segment, accept);
      var k := 0;
      RetryCount(n, 0);
      NextId(start, 0);
      var retry: int := Wrap16(n);
      retry := Wrap16(retry + 1);
      while true
        invariant k < Probes(n) && retry == RetryAt(n, k)
        invariant ids == IdAt(start, k)
        invariant Search(before, start, accept, 0) == Search(before, start, accept, k)
        invariant forall i :: 0 <= i < |conns| ==> conns[i].Value() == before[i]
        decreases Probes(n) - k
      {
        RetryCount(n, k);
        NextId(start, k);
        Probe(before, start, this, segment, accept, k);
        retry := Wrap16(retry - 1);
        var i := Pick(ids, n);
        ids := Wrap32(ids + 1);
        var ok := OfferAt(conns, i, segment, accept(k), before);
        if ok {
          break;
        }
        k := k + 1;
        if retry == 0 {
          break;
        }
      }
    }

    /** The callback of `onRead` for one framed request. */
    method Dispatch(conns: seq<RedisClient>, segment: Text, accept: nat -> bool, ghost before: seq<Conn<TcpSession>>)
      requires Distinct(conns) && ids < U32
      requires |before| == |conns| && forall i :: 0 <= i < |conns| ==> conns[i].Value() == before[i]
      modifies this`ids, conns
      ensures var p := Place(before, old(ids), this, segment, accept);
              ids == p.ids && forall i :: 0 <= i < |conns| ==> conns[i].Value() == p.conns[i]
      ensures ids < U32
    {
      if conns != [] {
        Retry(conns, segment, accept, before);
      }
    }

    /** `onRead`: frame what the buffer holds, place every request, drain what was consumed.
        The callback calls are made here in one row behind the parse, which reads only the
        buffer. `after` is what the storage holds behind the buffer. */
    method OnRead(conns: seq<RedisClient>, after: Text, accept: (nat, nat) -> bool, ghost before: seq<Conn<TcpSession>>)
      requires Distinct(conns) && ids < U32 && RespParser.Slack(input + after, |input|)
      requires |before| == |conns| && forall i :: 0 <= i < |conns| ==> conns[i].Value() == before[i]
      modifies this`ids, this`input, conns
      ensures ids < U32
      ensures input == if hasBev then Read(old(input)).rest else old(input)
      ensures var f := if hasBev then ForwardAll(before, old(ids), this, Read(old(input)).segments, accept, 0)
                       else Forwarded(before, old(ids));
              ids == f.ids && |f.conns| == |conns| && forall i :: 0 <= i < |conns| ==> conns[i].Value() == f.conns[i]
    {
      hide Read, Probes, Place;
      EmptyRead();
      if !hasBev || |input| == 0 {
        return;
      }
      var consumed, segments := Frame(input, after);
      ghost var start, now := ids, before;
      var j := 0;
      while j < |segments|
        invariant j <= |segments| && ids < U32 && input == old(input)
        invariant |now| == |conns| && forall i :: 0 <= i < |conns| ==> conns[i].Value() == now[i]
        invariant ForwardAll(before, start, this, segments, accept, 0)
               == ForwardAll(now, ids, this, segments, accept, j)
      {
        ghost var p := Place(now, ids, this, segments[j], Row(accept, j));
        Dispatch(conns, segments[j], Row(accept, j), now);
        now := p.conns;
        j := j + 1;
      }
      if consumed > 0 {
        input := input[consumed..];
      }
    }

    /** `handleEvent`: any event closes the session and asks the loop thread, if this thread has
        one, to drop it. */
    method HandleEvent(loop: LoopThread?)
      modifies this`isClosing, (if loop == null then {} else {loop})`taskQueue,
               (if loop == null then {} else {loop})`counter
      ensures isClosing
      ensures loop != null ==> loop.taskQueue == old(loop.taskQueue) + [Task(DelSession, Fd(fd))]
      ensures loop != null ==>
                loop.counter == if loop.evfd == 0 then old(loop.counter) else Signalled(old(loop.counter))
    {
      isClosing := true;
      if loop != null {
        var ok := loop.Send2LoopThread(Task(DelSession, Fd(fd)));
      }
    }
  }

  /** `include/redis_tcp_client.hpp`, and what `TcpClient` and `TcpSocket` give it. */
  class RedisClient {
    const info: ConnInfo
    var isConnected: bool
    var hasBev: bool
    var isClosing: bool               // of `TcpSocket`; only `close` sets it
    var input: Text
    var fifo: seq<TcpSession>         // _session_sptr_queue
    var written: seq<Text>            // what was written to the backend, text by text
    ghost var owners: seq<TcpSession> // for whom

    /** The constructor, `init` and `connect`; `made` says whether the bufferevent could be made. */
    constructor (info: ConnInfo, made: bool)
      ensures this.info == info && !isClosing
      ensures Value() == Conn(false, made, [], [], [], [])
    {
      this.info := info;
      isConnected, hasBev, isClosing := false, made, false;
      input, fifo, written, owners := [], [], [], [];
    }

    ghost function Value(): Conn<TcpSession>
      reads this
    {
      Conn(isConnected, hasBev && !isClosing, input, fifo, written, owners)
    }

    /** `TcpSocket::send`; `answer` is what `bufferevent_write` says. */
    method Send(data: Text, answer: bool) returns (ok: bool)
      modifies this`written
      ensures ok == (hasBev && !isClosing && answer)
      ensures written == if ok then old(written) + [data] else old(written)
    {
      if !hasBev || isClosing {
        return false;
      }
      ok := answer;
      if ok {
        written := written + [data];
      }
    }

    /** `_session_sptr_queue.push`. */
    method Queue(session: TcpSession)
      modifies this`fifo, this`owners
      ensures fifo == old(fifo) + [session] && owners == old(owners) + [session]
    {
      fifo, owners := fifo + [session], owners + [session];
    }

    /** One framed reply goes to the session at the front of the queue, which is popped. */
    method Give(reply: Text, answer: bool)
      requires fifo != []
      modifies this`fifo, {fifo[0]}`delivered
      ensures fifo == old(fifo)[1..]
      ensures var s := old(fifo)[0];
              s.delivered == if s.hasBev && !s.isClosing && answer then old(s.delivered) + [reply] else old(s.delivered)
    {
      var session := fifo[0];
      var ok := session.Send(reply, answer);
      fifo := fifo[1..];
    }

    /** The callback calls of one `onRead`, up to one that finds the queue empty: the front of an
        empty queue is undefined. `accept(k)` is what the bufferevent of a session answers to
        reply `k`, `texts` what the waiting sessions have been sent, `open` those that are. */
    method GiveEach(replies: seq<Text>, accept: nat -> bool,
                    ghost texts: map<TcpSession, seq<Text>>, ghost open: set<TcpSession>)
      returns (crashed: bool)
      requires forall s :: s in fifo ==> s in texts
      requires forall s :: s in texts ==> s.delivered == texts[s] && (s in open <==> s.hasBev && !s.isClosing)
      modifies this`fifo, (set s | s in texts)`delivered
      ensures crashed <==> |replies| > |old(fifo)|
      ensures var n := if crashed then |old(fifo)| else |replies|;
              && fifo == old(fifo)[n..]
              && var sent := GiveAll(texts, open, old(fifo), replies, accept, n);
                 sent.Keys == texts.Keys && forall s :: s in sent ==> s.delivered == sent[s]
    {
      ghost var queue, now := fifo, texts;
      var j := 0;
      while j < |replies|
        invariant j <= |replies| && j <= |queue| && fifo == queue[j..]
        invariant now.Keys == texts.Keys && forall s :: s in now ==> s.delivered == now[s]
        invariant now == GiveAll(texts, open, queue, replies, accept, j)
      {
        if |fifo| == 0 {
          return true;
        }
        now := GiveOne(now, open, fifo[0], replies[j], accept(j));
        Give(replies[j], accept(j));
        j := j + 1;
      }
      crashed := false;
    }

    /** `onRead`: frame what the buffer holds, give every reply to a session, drain what was
        consumed. */
    method OnRead(after: Text, accept: nat -> bool,
                  ghost texts: map<TcpSession, seq<Text>>, ghost open: set<TcpSession>)
      returns (crashed: bool)
      requires RespParser.Slack(input + after, |input|)
      requires forall s :: s in fifo ==> s in texts
      requires forall s :: s in texts ==> s.delivered == texts[s] && (s in open <==> s.hasBev && !s.isClosing)
      modifies this`input, this`fifo, (set s | s in texts)`delivered
      ensures crashed <==> hasBev && |Read(old(input)).segments| > |old(fifo)|
      ensures input == if hasBev && !crashed then Read(old(input)).rest else old(input)
      ensures var f := if hasBev then Read(old(input)).segments else [];
              var n := if crashed then |old(fifo)| else |f|;
              && fifo == old(fifo)[n..]
              && var sent := GiveAll(texts, open, old(fifo), f, accept, n);
                 sent.Keys == texts.Keys && forall s :: s in sent ==> s.delivered == sent[s]
    {
      hide Read;
      EmptyRead();
      if !hasBev || |input| == 0 {
        return false;
      }
      var consumed, segments := Frame(input, after);
      crashed := GiveEach(segments, accept, texts, open);
      if !crashed && consumed > 0 {
        input := input[consumed..];
      }
    }

    /** `TcpClient::handleEvent`: the flags of the event, and whether the socket error is
        `ECONNREFUSED` or `ETIMEDOUT`. */
    method HandleEvent(lost: bool, connected: bool, refused: bool)
      modifies this`isConnected, this`hasBev
      ensures isConnected == if lost then false else if connected && !refused then true else old(isConnected)
      ensures hasBev == (old(hasBev) && !lost)
    {
      if lost {
        isConnected, hasBev := false, false;
        return;
      }
      if connected {
        if !refused {
          isConnected := true;
        }
      }
    }
  }

  predicate Distinct(conns: seq<RedisClient>) {
    forall i, j :: 0 <= i < j < |conns| ==> conns[i] != conns[j]
  }

  /** `include/loop_thread.hpp` and `process_msg` of `src/loop_thread.cpp`, without the lock. */
  class LoopThread {
    var evfd: int      // 0 before `init` and after `stop`
    var counter: nat   // of the eventfd
    var running: bool  // the event loop
    var taskQueue: seq<Task>
    var sessions: map<int, TcpSession>
    var conns: seq<RedisClient>
    var listeners: seq<ConnInfo>

    constructor ()
      ensures evfd == 0 && counter == 0 && !running && taskQueue == [] && sessions == map[]
      ensures conns == [] && listeners == [] && Distinct(conns)
    {
      evfd, counter, running, taskQueue := 0, 0, false, [];
      sessions, conns, listeners := map[], [], [];
    }

    /** The task is queued before the eventfd is looked at. */
    method Send2LoopThread(task: Task) returns (ok: bool)
      modifies this`taskQueue, this`counter
      ensures ok == (evfd != 0)
      ensures taskQueue == old(taskQueue) + [task]
      ensures counter == if evfd == 0 || old(counter) >= 0xffff_ffff_ffff_fffe then old(counter) else old(counter) + 1
    {
      taskQueue := taskQueue + [task];
      if evfd == 0 {
        return false;
      }
      counter := Signalled(counter);
      return true;
    }

    method Stop() returns (ok: bool)
      modifies this`evfd, this`running
      ensures ok == (old(evfd) != 0) && evfd == 0
      ensures running == (old(running) && !ok)
    {
      if evfd == 0 {
        return false;
      }
      evfd := 0;
      running := false;
      return true;
    }

    /** `listenEventCallback` of `src/tcp_listener.cpp`: a session for a new socket. */
    method OnAccept(fd: int, ids: nat, made: bool) returns (session: TcpSession)
      requires ids < U32
      modifies this`sessions
      ensures fresh(session) && session.fd == fd && session.hasBev == made && !session.isClosing
      ensures session.input == [] && session.delivered == []
      ensures sessions == old(sessions)[fd := session]
    {
      session := new TcpSession(fd, ids, made);
      sessions := sessions[fd := session];
    }

    ghost function Start(): LoopState
      reads this
    {
      LoopState(map fd | fd in sessions :: Kept, 0, Infos(conns), listeners, evfd == 0)
    }

    /** The fields are what a fold over tasks says, where `before` was the session map and
        `made` the sessions made since. */
    ghost predicate Agrees(f: LoopState, before: map<int, TcpSession>, made: seq<TcpSession>)
      reads this, made
    {
      && |made| == f.made && Infos(conns) == f.conns && listeners == f.listeners && (evfd == 0 <==> f.stopped)
      && sessions.Keys == f.sessions.Keys
      && forall fd :: fd in f.sessions ==> SessionIs(f.sessions[fd], fd, before, made)
    }

    ghost predicate SessionIs(o: Origin, fd: int, before: map<int, TcpSession>, made: seq<TcpSession>)
      requires fd in sessions
      reads this`sessions, made
    {
      match o
      case Kept => fd in before && sessions[fd] == before[fd]
      case Made(n) => n < |made| && sessions[fd] == made[n] && made[n].fd == fd && !made[n].isClosing
    }

    /** One round of the loop of `process_msg`, on the task in front. A body of the wrong type and
        an unknown kind of connection pop the task and go to the next round; all else falls
        through to the pop at the end, but for a listener with text that is no address: `listen`
        throws, and nothing is popped. `works` says whether a bufferevent can be made. */
    method Handle(batch: seq<Task>, ids: nat, works: bool, isAddress: string -> bool,
                  ghost f: LoopState, ghost before: map<int, TcpSession>, ghost made: seq<TcpSession>)
      returns (rest: seq<Task>, threw: bool, ghost made': seq<TcpSession>)
      requires batch != [] && ids < U32 && Agrees(f, before, made)
      modifies this`sessions, this`conns, this`listeners, this`evfd, this`running
      ensures threw <==> batch[0].kind == NewListener && batch[0].body.Info? && !isAddress(batch[0].body.info.ip)
      ensures rest == if threw then batch else batch[1..]
      ensures running == (old(running) && !(batch[0].kind == ExitLoop && old(evfd) != 0))
      ensures if batch[0].kind == NewSession && batch[0].body.Fd? then
                |made'| == |made| + 1
                && var s := made'[|made|];
                   s.hasBev == works && !s.isClosing && s.input == [] && s.delivered == []
              else made' == made
      ensures if batch[0].kind == AddConn && batch[0].body.Info? && batch[0].body.info.kind != Unknown then
                |conns| == |old(conns)| + 1 && fresh(conns[|old(conns)|])
                && conns[|old(conns)|].Value() == Conn(false, works, [], [], [], [])
              else conns == old(conns)
      ensures Agrees(if threw then f else Execute(f, batch[0]), before, made')
      ensures old(conns) <= conns && (Distinct(old(conns)) ==> Distinct(conns))
      ensures made <= made' && fresh(made'[|made|..])
    {
      made', rest, threw := made, batch, false;
      var task := rest[0];
      match task.kind {
        case NewSession =>
          if !task.body.Fd? {
            rest := rest[1..];
            return;
          }
          made' := OpenSession(task.body.fd, ids, works, f, before, made);
        case NewListener =>
          if !task.body.Info? {
            rest := rest[1..];
            return;
          }
          if !isAddress(task.body.info.ip) {
            threw := true;
            return;
          }
          listeners := listeners + [task.body.info];
        case DelSession =>
          if !task.body.Fd? {
            rest := rest[1..];
            return;
          }
          sessions := sessions - {task.body.fd};
        case ExitLoop =>
          var ok := Stop();
        case AddConn =>
          if !task.body.Info? {
            rest := rest[1..];
            return;
          }
          if !Connectable(task.body.info) {
            rest := rest[1..];
            return;
          }
          Connect(task.body.info, works, f, before, made);
        case _ =>
      }
      rest := rest[1..];
    }

    method OpenSession(fd: int, ids: nat, works: bool,
                       ghost f: LoopState, ghost before: map<int, TcpSession>, ghost made: seq<TcpSession>)
      returns (ghost made': seq<TcpSession>)
      requires ids < U32 && Agrees(f, before, made)
      modifies this`sessions
      ensures Agrees(Execute(f, Task(NewSession, Fd(fd))), before, made')
      ensures made <= made' && |made'| == |made| + 1 && fresh(made'[|made|])
      ensures var s := made'[|made|];
              s.hasBev == works && !s.isClosing && s.input == [] && s.delivered == []
    {
      var session := new TcpSession(fd, ids, works);
      sessions := sessions[fd := session];
      made' := made + [session];
    }

    method Connect(info: ConnInfo, works: bool,
                   ghost f: LoopState, ghost before: map<int, TcpSession>, ghost made: seq<TcpSession>)
      requires Connectable(info) && Agrees(f, before, made)
      modifies this`conns
      ensures Agrees(Execute(f, Task(AddConn, Info(info))), before, made)
      ensures old(conns) <= conns && (Distinct(old(conns)) ==> Distinct(conns))
      ensures |conns| == |old(conns)| + 1 && fresh(conns[|old(conns)|])
      ensures conns[|old(conns)|].Value() == Conn(false, works, [], [], [], [])
    {
      var conn := new RedisClient(info, works);
      InfosAppend(conns, conn);
      conns := conns + [conn];
    }

    /** The same on task `k` of a batch, with what is known of the objects made by the tasks before. */
    method HandleNext(ghost all: seq<Task>, k: nat, batch: seq<Task>, ids: nat, works: nat -> bool,
                      isAddress: string -> bool, ghost f: LoopState, ghost before: map<int, TcpSession>,
                      ghost made: seq<TcpSession>, ghost base: nat, ghost ops: seq<nat>, ghost joins: seq<nat>)
      returns (rest: seq<Task>, threw: bool, ghost made': seq<TcpSession>, ghost one: seq<TcpSession>,
               ghost ops': seq<nat>, ghost joins': seq<nat>)
      requires k < |all| && batch == all[k..] && ids < U32 && Agrees(f, before, made)
      requires ops == Openers(all[..k]) && joins == Joiners(all[..k])
      requires MadeAs(made, ops, works) && JoinedAs(conns, base, joins, works)
      modifies this`sessions, this`conns, this`listeners, this`evfd, this`running
      ensures threw == Throws(all[k], isAddress)
      ensures rest == if threw then batch else all[k + 1..]
      ensures Agrees(if threw then f else Execute(f, all[k]), before, made')
      ensures old(conns) <= conns && (Distinct(old(conns)) ==> Distinct(conns))
      ensures made' == made + one && (forall s :: s in one ==> fresh(s))
      ensures ops' == if threw then ops else Openers(all[..k + 1])
      ensures joins' == if threw then joins else Joiners(all[..k + 1])
      ensures MadeAs(made', ops', works) && JoinedAs(conns, base, joins', works)
    {
      hide Agrees, Execute, Distinct;
      rest, threw, made' := Handle(batch, ids, works(k), isAddress, f, before, made);
      ops', joins', one := ops, joins, made'[|made|..];
      if !threw {
        OpenersNext(all, k);
        hide Openers, Joiners;
        ops', joins' := Openers(all[..k + 1]), Joiners(all[..k + 1]);
      }
    }

    /** The loop of `process_msg` over the swapped-out queue, up to a task that throws. */
    method HandleAll(all: seq<Task>, ids: nat, works: nat -> bool, isAddress: string -> bool)
      returns (handled: nat, threw: bool, ghost made: seq<TcpSession>)
      requires ids < U32
      modifies this`sessions, this`conns, this`listeners, this`evfd, this`running
      ensures HandledUpTo(all, isAddress, handled, threw)
      ensures MadeAs(made, Openers(all[..handled]), works)
      ensures JoinedAs(conns, |old(conns)|, Joiners(all[..handled]), works)
      ensures Agrees(Fold(old(Start()), all[..handled]), old(sessions), made)
      ensures old(conns) <= conns && (Distinct(old(conns)) ==> Distinct(conns))
      ensures AllNew(made)
    {
      hide Execute;
      var queue := all;
      handled, threw, made := 0, false, [];
      ghost var start, before, first := Start(), sessions, conns;
      ghost var f, base := start, |conns|;
      assert Agrees(f, sessions, made);
      FoldNothing(f);
      NoneYet(all, isAddress);
      ghost var ops, joins := Openers(all[..0]), Joiners(all[..0]);
      assert ops == [] && joins == [];
      hide *;
      while |queue| != 0
        invariant handled <= |all| && queue == all[handled..] && f == Fold(start, all[..handled])
        invariant !threw && NoneThrows(all, isAddress, handled)
        invariant Agrees(f, before, made)
        invariant first <= conns && (Distinct(first) ==> Distinct(conns))
        invariant AllNew(made)
        invariant ops == Openers(all[..handled]) && joins == Joiners(all[..handled])
        invariant MadeAs(made, ops, works) && JoinedAs(conns, base, joins, works)
        decreases |queue|
      {
        FoldNext(start, all, handled);
        ghost var one;
        queue, threw, made, one, ops, joins := HandleNext(all, handled, queue, ids, works, isAddress, f, before, made,
                                                     base, ops, joins);
        AllNewAppend(made[..|made| - |one|], one);
        if threw {
          OneThrows(all, isAddress, handled);
          return;
        }
        f := Execute(f, all[handled]);
        OneMore(all, isAddress, handled);
        handled := handled + 1;
      }
      AllHandled(all, isAddress);
    }

    /** `process_msg`: the whole queue is swapped out and handled; if a task throws, the rest of the
        batch is lost with it. `works(k)` says whether a bufferevent can be made for task `k`. */
    method ProcessMsg(ids: nat, works: nat -> bool, isAddress: string -> bool)
      returns (handled: nat, threw: bool, ghost made: seq<TcpSession>)
      requires ids < U32
      modifies this
      ensures taskQueue == [] && counter == old(counter)
      ensures HandledUpTo(old(taskQueue), isAddress, handled, threw)
      ensures MadeAs(made, Openers(old(taskQueue)[..handled]), works)
      ensures JoinedAs(conns, |old(conns)|, Joiners(old(taskQueue)[..handled]), works)
      ensures Agrees(Fold(old(Start()), old(taskQueue)[..handled]), old(sessions), made)
      ensures old(conns) <= conns && (Distinct(old(conns)) ==> Distinct(conns))
      ensures AllNew(made)
    {
      hide Agrees, Fold, Distinct;
      var queue := taskQueue;
      taskQueue := [];
      handled, threw, made := HandleAll(queue, ids, works, isAddress);
    }

    /** `evfc_cb`: the read of the eventfd fails on a counter of 0 and sets it to 0 otherwise. */
    method EvfcCb(ids: nat, works: nat -> bool, isAddress: string -> bool)
      returns (handled: nat, threw: bool, ghost made: seq<TcpSession>)
      requires ids < U32
      modifies this
      ensures counter == 0
      ensures old(counter) == 0 ==> handled == 0 && !threw && taskQueue == old(taskQueue)
      ensures old(counter) > 0 ==> taskQueue == [] && HandledUpTo(old(taskQueue), isAddress, handled, threw)
      ensures handled <= |old(taskQueue)|
      ensures MadeAs(made, Openers(old(taskQueue)[..handled]), works)
      ensures JoinedAs(conns, |old(conns)|, Joiners(old(taskQueue)[..handled]), works)
      ensures Agrees(Fold(old(Start()), old(taskQueue)[..handled]), old(sessions), made)
      ensures old(conns) <= conns && (Distinct(old(conns)) ==> Distinct(conns))
      ensures AllNew(made)
    {
      handled, threw, made := 0, false, [];
      if counter == 0 {
        return;
      }
      counter := 0;
      handled, threw, made := ProcessMsg(ids, works, isAddress);
    }
  }

  /** `address::from_string`, called outside any `try`, throws on text that is no address. */
  predicate Throws(task: Task, isAddress: string -> bool) {
    task.kind == NewListener && task.body.Info? && !isAddress(task.body.info.ip)
  }

  predicate NoneThrows(tasks: seq<Task>, isAddress: string -> bool, n: nat)
    requires n <= |tasks|
  {
    forall k :: 0 <= k < n ==> !Throws(tasks[k], isAddress)
  }

  /** The first `handled` tasks do not throw, and the next one does if there was an exception. */
  predicate HandledUpTo(tasks: seq<Task>, isAddress: string -> bool, handled: nat, threw: bool) {
    && handled <= |tasks| && NoneThrows(tasks, isAddress, handled)
    && if threw then handled < |tasks| && Throws(tasks[handled], isAddress) else handled == |tasks|
  }

  lemma NoneYet(tasks: seq<Task>, isAddress: string -> bool)
    ensures NoneThrows(tasks, isAddress, 0)
  {
  }

  lemma OneMore(tasks: seq<Task>, isAddress: string -> bool, n: nat)
    requires n < |tasks| && NoneThrows(tasks, isAddress, n) && !Throws(tasks[n], isAddress)
    ensures NoneThrows(tasks, isAddress, n + 1)
  {
  }

  lemma OneThrows(tasks: seq<Task>, isAddress: string -> bool, n: nat)
    requires n < |tasks| && NoneThrows(tasks, isAddress, n) && Throws(tasks[n], isAddress)
    ensures HandledUpTo(tasks, isAddress, n, true)
  {
  }

  lemma AllHandled(tasks: seq<Task>, isAddress: string -> bool)
    requires NoneThrows(tasks, isAddress, |tasks|)
    ensures HandledUpTo(tasks, isAddress, |tasks|, false)
  {
  }

  /** The sessions made by the messages at `ops`, and the connections made by those at `joins`:
      `works(k)` says whether a bufferevent could be made for message `k`. */
  ghost predicate MadeAs(made: seq<TcpSession>, ops: seq<nat>, works: nat -> bool)
    reads made
  {
    |made| == |ops| && forall n :: 0 <= n < |made| ==> made[n].hasBev == works(ops[n]) && !made[n].isClosing
  }

  ghost predicate JoinedAs(conns: seq<RedisClient>, base: nat, joins: seq<nat>, works: nat -> bool)
    reads conns
  {
    |conns| == base + |joins|
    && forall n :: 0 <= n < |joins| ==> conns[base + n].Value() == Conn(false, works(joins[n]), [], [], [], [])
  }

  /** Objects made since. */
  twostate predicate AllNew(new made: seq<TcpSession>) {
    forall s :: s in made ==> fresh(s)
  }

  twostate lemma AllNewAppend(new made: seq<TcpSession>, new one: seq<TcpSession>)
    requires AllNew(made) && forall s :: s in one ==> fresh(s)
    ensures AllNew(made + one)
  {
  }

  function Infos(conns: seq<RedisClient>): (infos: seq<ConnInfo>)
    ensures |infos| == |conns| && forall i :: 0 <= i < |infos| ==> infos[i] == conns[i].info
  {
    if conns == [] then [] else [conns[0].info] + Infos(conns[1..])
  }

  lemma InfosAppend(conns: seq<RedisClient>, conn: RedisClient)
    ensures Infos(conns + [conn]) == Infos(conns) + [conn.info]
  {
  }
}
