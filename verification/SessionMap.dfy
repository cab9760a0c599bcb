/** The map from sockets to sessions of one loop thread: the listener puts a session in
    (src/tcp_listener.cpp:8-16), a close event posts `DEL_SESSION` with the socket
    (src/tcp_session.cpp:73-84), and the loop thread swaps out all posted messages and handles
    them before its event loop goes on (src/loop_thread.cpp:8-136). */
module SessionMap {
  import Tasks
  import Bytes

  /** `waiting` counts the places of a session in queues from which replies still take it; `stuck`
      says that it has one in a queue that is never emptied, because its connection is lost or the
      buffer of it is stalled. */
  datatype Session = Session(fd: int, closing: bool, waiting: nat, stuck: bool)

  /** A posted `NEW_SESSION`, or a posted `DEL_SESSION` and the session that posted it. */
  datatype Post = Open(fd: int) | Erase(fd: int, poster: nat)

  /** Sessions are numbered in the order of their making. */
  datatype State = State(sessions: seq<Session>, byFd: map<int, nat>, queue: seq<Post>)

  const INIT: State := State([], map[], [])

  /** Session `n` is the one in the map under its socket. */
  predicate IsMapped(s: State, n: nat)
    requires n < |s.sessions|
  {
    s.sessions[n].fd in s.byFd && s.byFd[s.sessions[n].fd] == n
  }

  /** Something refers to the session, so its bufferevent is there and its socket is in use. */
  predicate Lives(s: State, n: int) {
    0 <= n < |s.sessions| && (IsMapped(s, n) || s.sessions[n].waiting > 0 || s.sessions[n].stuck)
  }

  predicate Pending(s: State, fd: int) {
    exists k :: 0 <= k < |s.queue| && s.queue[k] == Open(fd)
  }

  predicate InUse(s: State, fd: int) {
    Pending(s, fd) || exists n :: 0 <= n < |s.sessions| && Lives(s, n) && s.sessions[n].fd == fd
  }

  datatype Event =
    | Accept(fd: int) // the listener makes a session for a socket number that was not in use
    | Offer(fd: int)  // another thread posts such a number as `NEW_SESSION`
    | Ask(n: nat)     // a request of session n is placed: the session is queued
    | Reply(n: nat)   // a reply takes it from the queue
    | Lose(n: nat)    // the connection in whose queue it stands is lost, or its buffer stalls
    | Close(n: nat)   // an event on the bufferevent of session n
    | Batch           // all posted messages are swapped out and handled

  /** `once` is the assumption that a bufferevent reports at most one close event. */
  predicate Enabled(s: State, e: Event, once: bool) {
    match e
    case Accept(fd) => !InUse(s, fd)
    case Offer(fd) => !InUse(s, fd)
    case Ask(n) => Lives(s, n)
    case Reply(n) => n < |s.sessions| && s.sessions[n].waiting > 0
    case Lose(n) => n < |s.sessions| && s.sessions[n].waiting > 0
    case Close(n) => Lives(s, n) && (once ==> !s.sessions[n].closing)
    case Batch => s.queue != []
  }

  function Enter(s: State, fd: int): State {
    s.(sessions := s.sessions + [Session(fd, false, 0, false)], byFd := s.byFd[fd := |s.sessions|])
  }

  function HandleOne(s: State, p: Post): State {
    match p
    case Open(fd) => Enter(s, fd)
    case Erase(fd, _) => s.(byFd := s.byFd - {fd})
  }

  function HandleAll(s: State, posts: seq<Post>): State
    decreases |posts|
  {
    if posts == [] then s else HandleAll(HandleOne(s, posts[0]), posts[1..])
  }

  function With(s: State, n: nat, me: Session): State
    requires n < |s.sessions|
  {
    s.(sessions := s.sessions[n := me])
  }

  function Apply(s: State, e: Event): State
    requires Enabled(s, e, false)
  {
    match e
    case Accept(fd) => Enter(s, fd)
    case Offer(fd) => s.(queue := s.queue + [Open(fd)])
    case Ask(n) => With(s, n, s.sessions[n].(waiting := s.sessions[n].waiting + 1))
    case Reply(n) => With(s, n, s.sessions[n].(waiting := s.sessions[n].waiting - 1))
    case Lose(n) => With(s, n, s.sessions[n].(waiting := s.sessions[n].waiting - 1, stuck := true))
    case Close(n) => With(s, n, s.sessions[n].(closing := true)).(queue := s.queue + [Erase(s.sessions[n].fd, n)])
    case Batch => HandleAll(s.(queue := []), s.queue)
  }

  ghost predicate Run(events: seq<Event>, s: State, once: bool)
    decreases |events|
  {
    if events == [] then s == INIT
    else
      var before, last := events[..|events| - 1], events[|events| - 1];
      exists p :: Run(before, p, once) && Enabled(p, last, once) && s == Apply(p, last)
  }

  // ---- The map and the fold over the messages ----

  function AsTask(p: Post): Tasks.Task {
    Tasks.Task(if p.Open? then Tasks.NewSession else Tasks.DelSession, Tasks.Fd(p.fd))
  }

  function AsTasks(posts: seq<Post>): seq<Tasks.Task> {
    seq(|posts|, k requires 0 <= k < |posts| => AsTask(posts[k]))
  }

  /** The map and the session numbers are what the fold says, `base` sessions being there before. */
  predicate Matches(f: Tasks.LoopState, before: map<int, nat>, base: nat, s: State) {
    && |s.sessions| == base + f.made
    && f.sessions.Keys == s.byFd.Keys
    && forall fd :: fd in s.byFd ==>
         match f.sessions[fd]
         case Kept => fd in before && s.byFd[fd] == before[fd]
         case Made(k) => s.byFd[fd] == base + k
  }

  lemma {:induction false} HandleIsFold(s: State, posts: seq<Post>, f: Tasks.LoopState,
                                        before: map<int, nat>, base: nat)
    requires Matches(f, before, base, s)
    ensures Matches(Tasks.Fold(f, AsTasks(posts)), before, base, HandleAll(s, posts))
    decreases |posts|
  {
    if posts != [] {
      var tasks := AsTasks(posts);
      assert tasks[0] == AsTask(posts[0]) && tasks[1..] == AsTasks(posts[1..]);
      HandleIsFold(HandleOne(s, posts[0]), posts[1..], Tasks.Execute(f, tasks[0]), before, base);
    }
  }

  /** A batch changes the map as handling the messages one at a time does. */
  lemma BatchIsFold(s: State)
    requires Enabled(s, Batch, false)
    ensures var f := Tasks.LoopState(map fd | fd in s.byFd :: Tasks.Kept, 0, [], [], false);
            Matches(Tasks.Fold(f, AsTasks(s.queue)), s.byFd, |s.sessions|, Apply(s, Batch))
  {
    var f := Tasks.LoopState(map fd | fd in s.byFd :: Tasks.Kept, 0, [], [], false);
    HandleIsFold(s.(queue := []), s.queue, f, s.byFd, |s.sessions|);
  }

  // ---- What every event keeps ----

  predicate MapInv(s: State) {
    forall fd :: fd in s.byFd ==> s.byFd[fd] < |s.sessions| && s.sessions[s.byFd[fd]].fd == fd
  }

  ghost predicate SocketsInv(s: State) {
    forall m, n :: 0 <= m < n && Lives(s, m) && Lives(s, n) ==> s.sessions[m].fd != s.sessions[n].fd
  }

  /** The socket of a posted `NEW_SESSION` belongs to it alone. */
  ghost predicate OffersInv(s: State, posts: seq<Post>) {
    && (forall k, n :: 0 <= k < |posts| && posts[k].Open? && Lives(s, n) ==> s.sessions[n].fd != posts[k].fd)
    && (forall j, k :: 0 <= j < k < |posts| && posts[j].Open? ==> posts[k].fd != posts[j].fd)
  }

  /** Behind an erase whose poster still lives no other session posts one for the same socket. */
  predicate PostersInv(s: State) {
    && (forall k :: 0 <= k < |s.queue| && s.queue[k].Erase? ==>
          s.queue[k].poster < |s.sessions| && s.sessions[s.queue[k].poster].fd == s.queue[k].fd)
    && (forall j, k :: 0 <= j < k < |s.queue| && s.queue[j].Erase? && s.queue[k].Erase?
                       && s.queue[j].fd == s.queue[k].fd && Lives(s, s.queue[j].poster) ==>
          s.queue[k].poster == s.queue[j].poster)
  }

  ghost predicate BaseInv(s: State) {
    MapInv(s) && SocketsInv(s) && OffersInv(s, s.queue) && PostersInv(s)
  }

  lemma MappedLives(s: State, fd: int)
    requires MapInv(s) && fd in s.byFd
    ensures IsMapped(s, s.byFd[fd]) && Lives(s, s.byFd[fd])
  {
  }

  lemma EnterKeeps(s: State, fd: int, posts: seq<Post>)
    requires MapInv(s) && SocketsInv(s) && OffersInv(s, posts)
    requires forall k :: 0 <= k < |posts| && posts[k].Open? ==> posts[k].fd != fd
    requires forall n :: Lives(s, n) ==> s.sessions[n].fd != fd
    ensures var s' := Enter(s, fd);
            && MapInv(s') && SocketsInv(s') && OffersInv(s', posts) && fd !in s.byFd
            && Lives(s', |s.sessions|) && forall n :: 0 <= n < |s.sessions| ==> (Lives(s', n) <==> Lives(s, n))
  {
    if fd in s.byFd {
      MappedLives(s, fd);
    }
  }

  lemma {:induction false} HandleKeeps(s: State, posts: seq<Post>)
    requires MapInv(s) && SocketsInv(s) && OffersInv(s, posts)
    ensures MapInv(HandleAll(s, posts)) && SocketsInv(HandleAll(s, posts)) && HandleAll(s, posts).queue == s.queue
    decreases |posts|
  {
    if posts != [] {
      HandleOneKeeps(s, posts);
      hide MapInv, SocketsInv, OffersInv;
      HandleKeeps(HandleOne(s, posts[0]), posts[1..]);
    }
  }

  lemma HandleOneKeeps(s: State, posts: seq<Post>)
    requires MapInv(s) && SocketsInv(s) && OffersInv(s, posts) && posts != []
    ensures var s' := HandleOne(s, posts[0]);
            MapInv(s') && SocketsInv(s') && OffersInv(s', posts[1..]) && s'.queue == s.queue
  {
    var rest, s' := posts[1..], HandleOne(s, posts[0]);
    assert forall k :: 0 <= k < |rest| ==> rest[k] == posts[k + 1];
    assert OffersInv(s, rest);
    match posts[0]
    case Open(fd) => EnterKeeps(s, fd, rest);
    case Erase(_, _) => assert forall n :: Lives(s', n) ==> Lives(s, n);
  }

  /** A session changes, and comes to life by that in no way. */
  lemma WithKeeps(s: State, n: nat, me: Session)
    requires BaseInv(s) && n < |s.sessions| && me.fd == s.sessions[n].fd
    requires me.waiting > 0 || me.stuck ==> Lives(s, n)
    ensures BaseInv(With(s, n, me))
    ensures forall m :: Lives(With(s, n, me), m) ==> Lives(s, m)
  {
    var s' := With(s, n, me);
    forall m | Lives(s', m) ensures Lives(s, m) {
      assert IsMapped(s', m) <==> IsMapped(s, m);
    }
    assert forall m: nat :: m < |s.sessions| ==> s'.sessions[m].fd == s.sessions[m].fd;
  }

  lemma CloseKeeps(s: State, n: nat)
    requires BaseInv(s) && Enabled(s, Close(n), false)
    ensures BaseInv(Apply(s, Close(n)))
  {
    var t := With(s, n, s.sessions[n].(closing := true));
    WithKeeps(s, n, s.sessions[n].(closing := true));
    assert Lives(t, n) by { assert IsMapped(t, n) <==> IsMapped(s, n); }
    PostKeeps(t, n);
  }

  /** A session that lives posts an erase. */
  lemma PostKeeps(s: State, n: nat)
    requires BaseInv(s) && Lives(s, n)
    ensures BaseInv(s.(queue := s.queue + [Erase(s.sessions[n].fd, n)]))
  {
    var s' := s.(queue := s.queue + [Erase(s.sessions[n].fd, n)]);
    assert forall m :: Lives(s', m) <==> Lives(s, m);
    hide Lives;
  }

  lemma OfferKeeps(s: State, fd: int)
    requires BaseInv(s) && Enabled(s, Offer(fd), false)
    ensures BaseInv(Apply(s, Offer(fd)))
  {
    var s' := Apply(s, Offer(fd));
    assert forall m :: Lives(s', m) <==> Lives(s, m);
    assert forall k :: 0 <= k < |s.queue| ==> s.queue[k] != Open(fd);
  }

  lemma BaseKept(s: State, e: Event)
    requires BaseInv(s) && Enabled(s, e, false)
    ensures BaseInv(Apply(s, e))
  {
    match e
    case Accept(fd) => EnterKeeps(s, fd, s.queue);
    case Offer(fd) => OfferKeeps(s, fd);
    case Close(n) => CloseKeeps(s, n);
    case Batch =>
      var t := s.(queue := []);
      assert forall n :: Lives(t, n) <==> Lives(s, n);
      HandleKeeps(t, s.queue);
    case _ =>
      assert Lives(s, e.n);
      WithKeeps(s, e.n, Apply(s, e).sessions[e.n]);
  }

  lemma {:induction false} RunKeepsBase(events: seq<Event>, s: State, once: bool)
    requires Run(events, s, once)
    ensures BaseInv(s)
    decreases |events|
  {
    if events != [] {
      hide BaseInv, Apply;
      var before, last := events[..|events| - 1], events[|events| - 1];
      var p :| Run(before, p, once) && Enabled(p, last, once) && s == Apply(p, last);
      RunKeepsBase(before, p, once);
      BaseKept(p, last);
    }
  }

  // ---- Erases that take out the wrong session ----

  /** When its turn comes in the batch, erase `k` finds a session that did not post it. */
  predicate MissesAt(s: State, k: nat)
    requires k < |s.queue|
  {
    s.queue[k].Erase?
    && var t := HandleAll(s, s.queue[..k]);
       s.queue[k].fd in t.byFd && t.byFd[s.queue[k].fd] != s.queue[k].poster
  }

  predicate Misses(s: State) {
    exists k :: 0 <= k < |s.queue| && MissesAt(s, k)
  }

  /** What the map holds under a number for which no session is opened in the batch. */
  lemma {:induction false} LookUp(s: State, posts: seq<Post>, fd: int)
    requires forall j :: 0 <= j < |posts| ==> posts[j] != Open(fd)
    ensures var t := HandleAll(s, posts);
            && (fd in t.byFd <==> fd in s.byFd && forall j :: 0 <= j < |posts| ==> posts[j].fd != fd)
            && (fd in t.byFd ==> t.byFd[fd] == s.byFd[fd])
    decreases |posts|
  {
    if posts != [] {
      var rest := posts[1..];
      assert forall j :: 0 <= j < |rest| ==> rest[j] == posts[j + 1];
      LookUp(HandleOne(s, posts[0]), rest, fd);
      if forall j :: 0 <= j < |rest| ==> rest[j].fd != fd {
        assert posts[0].fd != fd ==> forall j :: 0 < j < |posts| ==> posts[j] == rest[j - 1];
      }
    }
  }

  /** The first message for the socket of message `k`. */
  function FirstFor(posts: seq<Post>, k: nat): (j: nat)
    requires k < |posts|
    ensures j <= k && posts[j].fd == posts[k].fd && forall i :: 0 <= i < j ==> posts[i].fd != posts[k].fd
  {
    if posts[0].fd == posts[k].fd then 0 else 1 + FirstFor(posts[1..], k - 1)
  }

  predicate Strays(s: State, p: Post) {
    p.Erase? && p.fd in s.byFd && s.byFd[p.fd] != p.poster
  }

  /** The batch takes out a wrong session exactly when a posted erase and the map disagree before it. */
  lemma MissesExactlyNow(s: State)
    requires BaseInv(s)
    ensures Misses(s) <==> exists k :: 0 <= k < |s.queue| && Strays(s, s.queue[k])
  {
    if k :| 0 <= k < |s.queue| && MissesAt(s, k) {
      LookUp(s, s.queue[..k], s.queue[k].fd);
      assert Strays(s, s.queue[k]);
    }
    if k :| 0 <= k < |s.queue| && Strays(s, s.queue[k]) {
      var fd, j := s.queue[k].fd, FirstFor(s.queue, k);
      MappedLives(s, fd);
      assert s.queue[j].Erase?;
      assert s.queue[j].poster != s.byFd[fd];
      LookUp(s, s.queue[..j], fd);
      assert MissesAt(s, j);
    }
  }

  /** These events lead from `s` to `t`, with no close event among them. */
  predicate Leads(s: State, events: seq<Event>, t: State)
    decreases |events|
  {
    if events == [] then s == t
    else !events[0].Close? && Enabled(s, events[0], false) && Leads(Apply(s, events[0]), events[1..], t)
  }

  ghost predicate CanMiss(s: State) {
    exists events, t :: Leads(s, events, t) && Misses(t)
  }

  /** A session with this socket stands in a queue that is never emptied, so the socket is never
      closed. */
  predicate Blocked(s: State, fd: int) {
    exists n :: 0 <= n < |s.sessions| && s.sessions[n].fd == fd && s.sessions[n].stuck
  }

  /** A posted erase whose poster is not in the map, if the socket can still get into it before. */
  predicate Harmful(s: State, p: Post) {
    p.Erase? && if p.fd in s.byFd then s.byFd[p.fd] != p.poster else !Pending(s, p.fd) && !Blocked(s, p.fd)
  }

  predicate Doomed(s: State) {
    exists k :: 0 <= k < |s.queue| && Harmful(s, s.queue[k])
  }

  lemma CanMissLater(s: State, e: Event)
    requires !e.Close? && Enabled(s, e, false) && CanMiss(Apply(s, e))
    ensures CanMiss(s)
  {
    hide Misses, Apply, Enabled;
    var events, t :| Leads(Apply(s, e), events, t) && Misses(t);
    assert ([e] + events)[1..] == events;
    assert Leads(s, [e] + events, t);
  }

  lemma MissesNow(s: State, k: nat)
    requires BaseInv(s) && k < |s.queue| && Strays(s, s.queue[k])
    ensures CanMiss(s)
  {
    hide BaseInv, Misses, Strays;
    MissesExactlyNow(s);
    assert Leads(s, [], s);
  }

  /** Nobody has the number: a new session can get it. */
  lemma FreeIsHit(s: State, k: nat)
    requires BaseInv(s) && k < |s.queue| && s.queue[k].Erase? && !InUse(s, s.queue[k].fd)
    ensures CanMiss(s)
  {
    hide CanMiss;
    var fd := s.queue[k].fd;
    BaseKept(s, Accept(fd));
    MissesNow(Apply(s, Accept(fd)), k);
    CanMissLater(s, Accept(fd));
  }

  /** One session has it and is out of the map: when its replies have come it goes. */
  lemma {:induction false} UnmappedIsHit(s: State, k: nat, n: nat)
    requires BaseInv(s) && k < |s.queue| && s.queue[k].Erase? && s.queue[k].fd !in s.byFd
    requires !Pending(s, s.queue[k].fd) && !Blocked(s, s.queue[k].fd)
    requires n < |s.sessions| && s.sessions[n].fd == s.queue[k].fd
    requires forall m :: Lives(s, m) && s.sessions[m].fd == s.queue[k].fd ==> m == n
    ensures CanMiss(s)
    decreases s.sessions[n].waiting
  {
    hide CanMiss;
    if s.sessions[n].waiting == 0 {
      assert !Lives(s, n);
      FreeIsHit(s, k);
    } else {
      var t := Apply(s, Reply(n));
      BaseKept(s, Reply(n));
      ReplyLives(s, n);
      hide BaseInv, Lives;
      UnmappedIsHit(t, k, n);
      CanMissLater(s, Reply(n));
    }
  }

  lemma ReplyLives(s: State, n: nat)
    requires Enabled(s, Reply(n), false)
    ensures forall m :: Lives(Apply(s, Reply(n)), m) ==> Lives(s, m)
  {
    var t := Apply(s, Reply(n));
    forall m | Lives(t, m) ensures Lives(s, m) {
      assert IsMapped(t, m) <==> IsMapped(s, m);
    }
  }

  lemma DoomedIsHit(s: State)
    requires BaseInv(s) && Doomed(s)
    ensures CanMiss(s)
  {
    hide CanMiss;
    var k :| 0 <= k < |s.queue| && Harmful(s, s.queue[k]);
    var fd := s.queue[k].fd;
    if fd in s.byFd {
      MissesNow(s, k);
    } else if n :| 0 <= n < |s.sessions| && Lives(s, n) && s.sessions[n].fd == fd {
      UnmappedIsHit(s, k, n);
    } else {
      FreeIsHit(s, k);
    }
  }

  /** A number that no one can miss with is in use, if it is not in the map with its poster. */
  lemma SafeIsUsed(s: State, p: Post)
    requires BaseInv(s) && p.Erase? && !Harmful(s, p)
    ensures InUse(s, p.fd)
  {
    if p.fd in s.byFd {
      MappedLives(s, p.fd);
    } else if n :| 0 <= n < |s.sessions| && s.sessions[n].fd == p.fd && s.sessions[n].stuck {
      assert Lives(s, n);
    }
  }

  lemma SafeStays(s: State, e: Event, p: Post)
    requires BaseInv(s) && !e.Close? && !e.Batch? && Enabled(s, e, false) && p.Erase? && !Harmful(s, p)
    ensures !Harmful(Apply(s, e), p)
  {
    var s' := Apply(s, e);
    SafeIsUsed(s, p);
    if p.fd !in s.byFd {
      if j :| 0 <= j < |s.queue| && s.queue[j] == Open(p.fd) {
        assert s'.queue[j] == Open(p.fd);
      } else {
        var n :| 0 <= n < |s.sessions| && s.sessions[n].fd == p.fd && s.sessions[n].stuck;
        assert s'.sessions[n].fd == p.fd && s'.sessions[n].stuck;
      }
    }
  }

  lemma {:induction false} NeverMisses(s: State, events: seq<Event>, t: State)
    requires BaseInv(s) && !Doomed(s) && Leads(s, events, t)
    ensures !Misses(t)
    decreases |events|
  {
    if events == [] {
      MissesExactlyNow(s);
      assert forall k :: 0 <= k < |s.queue| ==> !Harmful(s, s.queue[k]);
    } else {
      var e := events[0];
      NotDoomedStays(s, e);
      hide Misses, Doomed, BaseInv, Apply, Enabled;
      BaseKept(s, e);
      NeverMisses(Apply(s, e), events[1..], t);
    }
  }

  lemma NotDoomedStays(s: State, e: Event)
    requires BaseInv(s) && !Doomed(s) && !e.Close? && Enabled(s, e, false)
    ensures !Doomed(Apply(s, e))
  {
    var s' := Apply(s, e);
    if e == Batch {
      QueueUntouched(s.(queue := []), s.queue);
    } else {
      forall k | 0 <= k < |s'.queue| ensures !Harmful(s', s'.queue[k]) {
        if k < |s.queue| {
          assert s'.queue[k] == s.queue[k] && !Harmful(s, s.queue[k]);
          if s.queue[k].Erase? {
            SafeStays(s, e, s.queue[k]);
          }
        }
      }
    }
  }

  lemma {:induction false} QueueUntouched(s: State, posts: seq<Post>)
    ensures HandleAll(s, posts).queue == s.queue
    decreases |posts|
  {
    if posts != [] {
      QueueUntouched(HandleOne(s, posts[0]), posts[1..]);
    }
  }

  /** Any number of close events: without another one some erase can still take out a session that
      did not post it, exactly when the poster of a posted erase is not in the map any more and
      its socket can get there: it is there already, or no `NEW_SESSION` with it is posted
      and no session with it is stuck. */
  lemma MissesExactly(events: seq<Event>, s: State)
    requires Run(events, s, false)
    ensures CanMiss(s) <==> Doomed(s)
  {
    hide Run, BaseInv, Doomed, Leads, Misses;
    RunKeepsBase(events, s, false);
    if CanMiss(s) && !Doomed(s) {
      var later, t :| Leads(s, later, t) && Misses(t);
      NeverMisses(s, later, t);
    }
    if Doomed(s) {
      DoomedIsHit(s);
    }
  }

  /** Where no `NEW_SESSION` is posted and no session is stuck,
      the poster that is not in the map is the whole condition. */
  lemma UnmappedPosterExactly(events: seq<Event>, s: State)
    requires Run(events, s, false)
    requires forall k :: 0 <= k < |s.queue| ==> s.queue[k].Erase?
    requires forall n :: 0 <= n < |s.sessions| ==> !s.sessions[n].stuck
    ensures forall k :: 0 <= k < |s.queue| ==> s.queue[k].poster < |s.sessions|
    ensures CanMiss(s) <==> exists k :: 0 <= k < |s.queue| && !IsMapped(s, s.queue[k].poster)
  {
    hide Run, CanMiss;
    RunKeepsBase(events, s, false);
    MissesExactly(events, s);
    if k :| 0 <= k < |s.queue| && !IsMapped(s, s.queue[k].poster) {
      assert Harmful(s, s.queue[k]);
    }
  }

  /** From a state that cannot miss, one more close event of a session makes it possible exactly
      when the session is not in the map any more and is not stuck: it only waits for replies that
      can come. */
  lemma CloseDoomsExactly(events: seq<Event>, s: State, n: nat)
    requires Run(events, s, false) && Enabled(s, Close(n), false) && !CanMiss(s)
    ensures CanMiss(Apply(s, Close(n))) <==> !IsMapped(s, n) && !s.sessions[n].stuck
  {
    hide Run, CanMiss;
    RunKeepsBase(events, s, false);
    MissesExactly(events, s);
    var s' := Apply(s, Close(n));
    Extend(events, s, Close(n), s', false);
    MissesExactly(events + [Close(n)], s');
    LastPostDooms(s, n);
  }

  lemma Extend(events: seq<Event>, p: State, e: Event, s: State, once: bool)
    requires Run(events, p, once) && Enabled(p, e, once) && Apply(p, e) == s
    ensures Run(events + [e], s, once)
  {
    hide Apply, Enabled;
    assert (events + [e])[..|events|] == events;
  }

  lemma LastPostDooms(s: State, n: nat)
    requires BaseInv(s) && !Doomed(s) && Enabled(s, Close(n), false)
    ensures Doomed(Apply(s, Close(n))) <==> !IsMapped(s, n) && !s.sessions[n].stuck
  {
    var s', fd, last := Apply(s, Close(n)), s.sessions[n].fd, |s.queue|;
    SamePlaces(s, n);
    forall k | 0 <= k < last ensures !Harmful(s', s'.queue[k]) {
      assert s'.queue[k] == s.queue[k] && !Harmful(s, s.queue[k]);
      assert Pending(s', s.queue[k].fd) <==> Pending(s, s.queue[k].fd);
      assert Blocked(s', s.queue[k].fd) <==> Blocked(s, s.queue[k].fd);
    }
    if fd in s.byFd {
      MappedLives(s, fd);
    }
    if s.sessions[n].stuck {
      assert Blocked(s, fd);
    }
    if m :| 0 <= m < |s.sessions| && s.sessions[m].fd == fd && s.sessions[m].stuck {
      assert Lives(s, m);
    }
    assert !Pending(s, fd);
    assert s'.queue[last] == Erase(fd, n);
    assert Harmful(s', s'.queue[last]) <==> !IsMapped(s, n) && !s.sessions[n].stuck;
  }

  /** A close event changes neither who is pending nor who is blocked. */
  lemma SamePlaces(s: State, n: nat)
    requires Enabled(s, Close(n), false)
    ensures var s' := Apply(s, Close(n));
            forall fd :: (Pending(s', fd) <==> Pending(s, fd)) && (Blocked(s', fd) <==> Blocked(s, fd))
  {
    var s' := Apply(s, Close(n));
    forall fd ensures (Pending(s', fd) <==> Pending(s, fd)) && (Blocked(s', fd) <==> Blocked(s, fd)) {
      if j :| 0 <= j < |s.queue| && s.queue[j] == Open(fd) {
        assert s'.queue[j] == Open(fd);
      }
      if m :| 0 <= m < |s.sessions| && s.sessions[m].fd == fd && s.sessions[m].stuck {
        assert s'.sessions[m].fd == fd && s'.sessions[m].stuck;
      }
    }
  }

  /** It happens: for every socket number there is a run that leads to a batch which takes out a
      session that has not closed. */
  lemma MissIsReached(fd: int)
    ensures exists events, s :: Run(events, s, false) && Misses(s) && Enabled(s, Batch, false)
              && s.byFd == map[fd := 1] && |s.sessions| == 2 && !s.sessions[1].closing
              && Apply(s, Batch).byFd == map[]
  {
    hide Run;
    var held, gone := Session(fd, true, 1, false), Session(fd, true, 0, false);
    var s3 := State([held], map[fd := 0], [Erase(fd, 0)]);
    var s4 := State([held], map[], []);
    var s7 := State([gone, Session(fd, false, 0, false)], map[fd := 1], [Erase(fd, 0)]);
    ClosedWhileWaiting(fd, s3);
    assert Apply(s3, Batch) == s4 by {
      assert s3.queue[1..] == [];
      assert HandleAll(HandleOne(s3.(queue := []), s3.queue[0]), []) == s4;
    }
    Extend([Accept(fd), Ask(0), Close(0)], s3, Batch, s4, false);
    ClosedAgain(fd, [Accept(fd), Ask(0), Close(0)] + [Batch], s4, s7);
    assert s7.queue[..0] == [] && MissesAt(s7, 0);
    assert s7.queue[1..] == [];
    assert HandleAll(HandleOne(s7.(queue := []), s7.queue[0]), []).byFd == map[];
  }

  lemma AcceptAskClose(fd: int, s1: State, s2: State, s3: State)
    requires s1 == State([Session(fd, false, 0, false)], map[fd := 0], [])
    requires s2 == State([Session(fd, false, 1, false)], map[fd := 0], [])
    requires s3 == State([Session(fd, true, 1, false)], map[fd := 0], [Erase(fd, 0)])
    ensures Enabled(INIT, Accept(fd), false) && Apply(INIT, Accept(fd)) == s1
    ensures Enabled(s1, Ask(0), false) && Apply(s1, Ask(0)) == s2
    ensures Enabled(s2, Close(0), false) && Apply(s2, Close(0)) == s3
  {
  }

  lemma ClosedWhileWaiting(fd: int, s3: State)
    requires s3 == State([Session(fd, true, 1, false)], map[fd := 0], [Erase(fd, 0)])
    ensures Run([Accept(fd), Ask(0), Close(0)], s3, false)
  {
    hide Apply, Enabled;
    var s1 := State([Session(fd, false, 0, false)], map[fd := 0], []);
    var s2 := State([Session(fd, false, 1, false)], map[fd := 0], []);
    assert Run([], INIT, false);
    AcceptAskClose(fd, s1, s2, s3);
    hide Run;
    Extend([], INIT, Accept(fd), s1, false);
    Extend([] + [Accept(fd)], s1, Ask(0), s2, false);
    Extend([] + [Accept(fd)] + [Ask(0)], s2, Close(0), s3, false);
    assert [] + [Accept(fd)] + [Ask(0)] + [Close(0)] == [Accept(fd), Ask(0), Close(0)];
  }

  lemma ClosedAgain(fd: int, events: seq<Event>, s4: State, s7: State)
    requires Run(events, s4, false) && s4 == State([Session(fd, true, 1, false)], map[], [])
    requires s7 == State([Session(fd, true, 0, false), Session(fd, false, 0, false)], map[fd := 1], [Erase(fd, 0)])
    ensures Run(events + [Close(0)] + [Reply(0)] + [Accept(fd)], s7, false)
  {
    hide Run;
    var s5 := State([Session(fd, true, 1, false)], map[], [Erase(fd, 0)]);
    var s6 := State([Session(fd, true, 0, false)], map[], [Erase(fd, 0)]);
    Extend(events, s4, Close(0), s5, false);
    Extend(events + [Close(0)], s5, Reply(0), s6, false);
    assert !InUse(s6, fd);
    Extend(events + [Close(0)] + [Reply(0)], s6, Accept(fd), s7, false);
  }

  // ---- One close event for each session ----

  /** Each posted erase will meet the session that posted it. */
  predicate MetInv(s: State, posts: seq<Post>) {
    && (forall k :: 0 <= k < |posts| && posts[k].Erase? ==>
          var n := posts[k].poster;
          n < |s.sessions| && s.sessions[n].fd == posts[k].fd && s.sessions[n].closing && IsMapped(s, n))
    && (forall j, k :: 0 <= j < k < |posts| && posts[j].Erase? && posts[k].Erase? ==> posts[j].fd != posts[k].fd)
  }

  /** A session that still reads and writes is found under its socket. */
  ghost predicate FoundInv(s: State) {
    forall n :: Lives(s, n) && !s.sessions[n].closing ==> IsMapped(s, n)
  }

  ghost predicate Inv(s: State) {
    BaseInv(s) && MetInv(s, s.queue) && FoundInv(s)
  }

  lemma {:induction false} HandleFinds(s: State, posts: seq<Post>)
    requires MapInv(s) && SocketsInv(s) && OffersInv(s, posts) && MetInv(s, posts) && FoundInv(s)
    ensures FoundInv(HandleAll(s, posts))
    decreases |posts|
  {
    if posts != [] {
      HandleOneKeeps(s, posts);
      HandleOneFinds(s, posts);
      hide MapInv, SocketsInv, OffersInv, MetInv, FoundInv;
      HandleFinds(HandleOne(s, posts[0]), posts[1..]);
    }
  }

  lemma HandleOneFinds(s: State, posts: seq<Post>)
    requires MapInv(s) && SocketsInv(s) && OffersInv(s, posts) && MetInv(s, posts) && FoundInv(s) && posts != []
    ensures MetInv(HandleOne(s, posts[0]), posts[1..]) && FoundInv(HandleOne(s, posts[0]))
  {
    var rest, s' := posts[1..], HandleOne(s, posts[0]);
    assert forall k :: 0 <= k < |rest| ==> rest[k] == posts[k + 1];
    forall n | Lives(s', n) && !s'.sessions[n].closing ensures IsMapped(s', n) {
      if n < |s.sessions| {
        assert IsMapped(s', n) ==> IsMapped(s, n);
        assert Lives(s, n) && IsMapped(s, n);
      }
    }
  }

  /** The same sessions, in the same places of the map, and no new ones live. */
  predicate Alike(s: State, s': State) {
    && |s'.sessions| == |s.sessions|
    && (forall n: nat :: n < |s.sessions| ==>
          && s'.sessions[n].fd == s.sessions[n].fd
          && (IsMapped(s', n) <==> IsMapped(s, n)) && (Lives(s', n) ==> Lives(s, n)))
    && forall n: nat :: n < |s.sessions| && s.sessions[n].closing ==> s'.sessions[n].closing
  }

  lemma AlikeKeeps(s: State, s': State, posts: seq<Post>)
    requires Alike(s, s') && MetInv(s, posts) && FoundInv(s)
    ensures MetInv(s', posts) && FoundInv(s')
  {
  }

  lemma CloseFinds(s: State, n: nat)
    requires Inv(s) && Enabled(s, Close(n), true)
    ensures MetInv(Apply(s, Close(n)), Apply(s, Close(n)).queue) && FoundInv(Apply(s, Close(n)))
  {
    var s' := Apply(s, Close(n));
    assert Alike(s, s');
    AlikeKeeps(s, s', s.queue);
    hide BaseInv, FoundInv, Alike, Lives;
    assert forall k :: 0 <= k < |s.queue| ==> s'.queue[k] == s.queue[k];
  }

  lemma EnterFinds(s: State, fd: int)
    requires Inv(s) && Enabled(s, Accept(fd), true)
    ensures MetInv(Enter(s, fd), s.queue) && FoundInv(Enter(s, fd))
  {
    EnterKeeps(s, fd, s.queue);
    var s' := Enter(s, fd);
    assert forall n: nat :: n < |s.sessions| && IsMapped(s, n) ==> IsMapped(s', n);
  }

  lemma StepKeeps(s: State, e: Event)
    requires Inv(s) && Enabled(s, e, true)
    ensures Inv(Apply(s, e))
  {
    var s' := Apply(s, e);
    BaseKept(s, e);
    match e
    case Accept(fd) => EnterFinds(s, fd);
    case Close(n) => CloseFinds(s, n);
    case Batch =>
      var t := s.(queue := []);
      AlikeKeeps(s, t, s.queue);
      assert forall n :: Lives(t, n) <==> Lives(s, n);
      HandleFinds(t, s.queue);
      QueueUntouched(t, s.queue);
    case _ =>
      hide BaseInv, MetInv, FoundInv;
      assert Alike(s, s');
      AlikeKeeps(s, s', s.queue);
      NewOffer(s, s', e);
  }

  lemma NewOffer(s: State, s': State, e: Event)
    requires MetInv(s', s.queue) && (s'.queue == s.queue || (e.Offer? && s'.queue == s.queue + [Open(e.fd)]))
    ensures MetInv(s', s'.queue)
  {
  }

  lemma {:induction false} RunKeeps(events: seq<Event>, s: State)
    requires Run(events, s, true)
    ensures Inv(s)
    decreases |events|
  {
    if events != [] {
      hide Inv, Apply, Enabled;
      var before, last := events[..|events| - 1], events[|events| - 1];
      var p :| Run(before, p, true) && Enabled(p, last, true) && s == Apply(p, last);
      RunKeeps(before, p);
      StepKeeps(p, last);
    }
  }

  lemma {:induction false} SessionsStay(s: State, posts: seq<Post>)
    ensures s.sessions <= HandleAll(s, posts).sessions
    decreases |posts|
  {
    if posts != [] {
      SessionsStay(HandleOne(s, posts[0]), posts[1..]);
    }
  }

  /** With one close event per session: every session that lives and has not closed is in the map,
      no erase can ever take out a wrong session, and a batch takes exactly those sessions out
      of the map that have posted an erase in it. */
  lemma ErasesHitTheirPoster(events: seq<Event>, s: State)
    requires Run(events, s, true)
    ensures forall n :: Lives(s, n) && !s.sessions[n].closing ==> IsMapped(s, n)
    ensures !CanMiss(s)
    ensures Enabled(s, Batch, true) ==>
              var t := Apply(s, Batch);
              |s.sessions| <= |t.sessions|
              && forall n: nat :: n < |s.sessions| && IsMapped(s, n) ==>
                   (IsMapped(t, n) <==> forall k :: 0 <= k < |s.queue| ==> s.queue[k] != Erase(s.sessions[n].fd, n))
  {
    hide Run, CanMiss;
    RunKeeps(events, s);
    NothingToMiss(s);
    if Enabled(s, Batch, true) {
      var t := s.(queue := []);
      SessionsStay(t, s.queue);
      forall n: nat | n < |s.sessions| && IsMapped(s, n)
        ensures IsMapped(Apply(s, Batch), n)
                <==> forall k :: 0 <= k < |s.queue| ==> s.queue[k] != Erase(s.sessions[n].fd, n)
      {
        TakenOut(s, n);
      }
    }
  }

  lemma NothingToMiss(s: State)
    requires Inv(s)
    ensures !CanMiss(s)
  {
    if later, t :| Leads(s, later, t) && Misses(t) {
      assert !Doomed(s);
      NeverMisses(s, later, t);
    }
  }

  lemma TakenOut(s: State, n: nat)
    requires Inv(s) && Enabled(s, Batch, true) && n < |s.sessions| && IsMapped(s, n)
    ensures var t := Apply(s, Batch);
            n < |t.sessions|
            && (IsMapped(t, n) <==> forall k :: 0 <= k < |s.queue| ==> s.queue[k] != Erase(s.sessions[n].fd, n))
  {
    var fd := s.sessions[n].fd;
    var s0 := s.(queue := []);
    SessionsStay(s0, s.queue);
    assert Lives(s, n);
    LookUp(s0, s.queue, fd);
    if k :| 0 <= k < |s.queue| && s.queue[k].fd == fd {
      assert s.queue[k] == Erase(fd, n);
    }
  }

  // ---- The state, told from the events alone ----

  function Count(events: seq<Event>, e: Event): nat {
    if events == [] then 0
    else Count(events[..|events| - 1], e) + if events[|events| - 1] == e then 1 else 0
  }

  function Opened(posts: seq<Post>): seq<int> {
    if posts == [] then [] else (if posts[0].Open? then [posts[0].fd] else []) + Opened(posts[1..])
  }

  /** The sockets of the sessions, in the order of making: accepted ones, and those opened by the
      messages of a batch. */
  function Made(events: seq<Event>): seq<int>
    decreases |events|, 1
  {
    if events == [] then []
    else
      var before := events[..|events| - 1];
      match events[|events| - 1]
      case Accept(fd) => Made(before) + [fd]
      case Batch => Made(before) + Opened(Posted(before))
      case _ => Made(before)
  }

  /** What has been posted since the last batch. */
  function Posted(events: seq<Event>): seq<Post>
    decreases |events|, 0
  {
    if events == [] then []
    else
      var before := events[..|events| - 1];
      match events[|events| - 1]
      case Offer(fd) => Posted(before) + [Open(fd)]
      case Close(n) => Posted(before) + if n < |Made(before)| then [Erase(Made(before)[n], n)] else []
      case Batch => []
      case _ => Posted(before)
  }

  predicate SessionTold(events: seq<Event>, n: nat, me: Session) {
    && (me.closing <==> Close(n) in events)
    && (me.stuck <==> Lose(n) in events)
    && me.waiting == Count(events, Ask(n)) - Count(events, Reply(n)) - Count(events, Lose(n))
  }

  predicate Unnamed(events: seq<Event>, n: nat) {
    Close(n) !in events && Lose(n) !in events && Ask(n) !in events && Reply(n) !in events
  }

  ghost predicate Told(events: seq<Event>, s: State) {
    && |s.sessions| == |Made(events)| && s.queue == Posted(events)
    && (forall n: nat :: n < |s.sessions| ==>
          s.sessions[n].fd == Made(events)[n] && SessionTold(events, n, s.sessions[n]))
    && forall n: nat :: n >= |s.sessions| ==> Unnamed(events, n)
  }

  function FreshOnes(fds: seq<int>): (f: seq<Session>)
    ensures |f| == |fds| && forall k :: 0 <= k < |f| ==> f[k] == Session(fds[k], false, 0, false)
  {
    seq(|fds|, k requires 0 <= k < |fds| => Session(fds[k], false, 0, false))
  }

  lemma {:induction false} HandleMakes(s: State, posts: seq<Post>)
    ensures HandleAll(s, posts).sessions == s.sessions + FreshOnes(Opened(posts))
    ensures HandleAll(s, posts).queue == s.queue
    decreases |posts|
  {
    if posts == [] {
      assert s.sessions + FreshOnes([]) == s.sessions;
    } else {
      HandleMakes(HandleOne(s, posts[0]), posts[1..]);
      if posts[0].Open? {
        var one := Session(posts[0].fd, false, 0, false);
        assert FreshOnes(Opened(posts)) == [one] + FreshOnes(Opened(posts[1..]));
        Bytes.PlusAssociates(s.sessions, [one], FreshOnes(Opened(posts[1..])));
      } else {
        assert Opened(posts) == Opened(posts[1..]);
      }
    }
  }

  lemma LastEvent(before: seq<Event>, e: Event, n: nat)
    ensures var events := before + [e];
            && (Close(n) in events <==> Close(n) in before || e == Close(n))
            && (Lose(n) in events <==> Lose(n) in before || e == Lose(n))
            && (Ask(n) in events <==> Ask(n) in before || e == Ask(n))
            && (Reply(n) in events <==> Reply(n) in before || e == Reply(n))
            && Count(events, Ask(n)) == Count(before, Ask(n)) + (if e == Ask(n) then 1 else 0)
            && Count(events, Reply(n)) == Count(before, Reply(n)) + (if e == Reply(n) then 1 else 0)
            && Count(events, Lose(n)) == Count(before, Lose(n)) + (if e == Lose(n) then 1 else 0)
  {
    assert (before + [e])[..|before|] == before;
  }

  lemma {:induction false} NoneCounted(events: seq<Event>, e: Event)
    requires e !in events
    ensures Count(events, e) == 0
  {
    if events != [] {
      NoneCounted(events[..|events| - 1], e);
    }
  }

  lemma SessionToldStep(before: seq<Event>, p: State, e: Event, s: State, n: nat)
    requires Told(before, p) && Enabled(p, e, false) && s == Apply(p, e)
    ensures n < |p.sessions| ==> n < |s.sessions| && SessionTold(before + [e], n, s.sessions[n])
    ensures n < |p.sessions| ==> s.sessions[n].fd == p.sessions[n].fd
    ensures |p.sessions| <= n < |s.sessions| ==> SessionTold(before + [e], n, s.sessions[n])
    ensures n >= |s.sessions| ==> Unnamed(before + [e], n) && n >= |p.sessions|
  {
    LastEvent(before, e, n);
    hide Count, Made, Posted, Opened;
    HandleMakes(p.(queue := []), p.queue);
    hide HandleAll;
    if n < |p.sessions| {
      assert SessionTold(before, n, p.sessions[n]);
    } else {
      assert Unnamed(before, n);
      NoneCounted(before, Ask(n));
      NoneCounted(before, Reply(n));
      NoneCounted(before, Lose(n));
    }
  }

  lemma MadeStep(before: seq<Event>, p: State, e: Event, s: State)
    requires Told(before, p) && Enabled(p, e, false) && s == Apply(p, e)
    ensures |s.sessions| == |Made(before + [e])| && s.queue == Posted(before + [e])
    ensures forall n: nat :: n < |s.sessions| ==> s.sessions[n].fd == Made(before + [e])[n]
  {
    assert (before + [e])[..|before|] == before;
    HandleMakes(p.(queue := []), p.queue);
    hide HandleAll, Opened, SessionTold, Unnamed;
  }

  /** In every run: the sessions are those accepted and those opened by a batch, in order; what is
      posted is what came since the last batch; and a session is closing exactly if its close event
      came, stuck exactly if a connection with it was lost, and waits for the replies to its
      requests that have neither come nor been lost. */
  lemma {:induction false} RunTold(events: seq<Event>, s: State, once: bool)
    requires Run(events, s, once)
    ensures Told(events, s)
    decreases |events|
  {
    hide Told, Apply;
    if events == [] {
      NothingTold();
    } else {
      var before, last := events[..|events| - 1], events[|events| - 1];
      var p :| Run(before, p, once) && Enabled(p, last, once) && s == Apply(p, last);
      RunTold(before, p, once);
      ToldStep(before, p, last, s);
      assert events == before + [last];
    }
  }

  lemma NothingTold()
    ensures Told([], INIT)
  {
  }

  lemma ToldStep(before: seq<Event>, p: State, e: Event, s: State)
    requires Told(before, p) && Enabled(p, e, false) && s == Apply(p, e)
    ensures Told(before + [e], s)
  {
    MadeStep(before, p, e, s);
    forall n: nat
      ensures n < |s.sessions| ==> SessionTold(before + [e], n, s.sessions[n])
      ensures n >= |s.sessions| ==> Unnamed(before + [e], n)
    {
      SessionToldStep(before, p, e, s, n);
    }
    hide Apply, Enabled, SessionTold, Unnamed, Made, Posted;
  }
}
