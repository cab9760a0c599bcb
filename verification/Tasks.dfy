/** The task messages of `include/util.hpp` and what a loop thread does with each
    (src/loop_thread.cpp:20-136), as a fold over the messages. */
module Tasks {
  import Bytes

  datatype ConnKind = IpV4 | IpV6 | UnixSocket | Unknown

  datatype ConnInfo = ConnInfo(kind: ConnKind, ip: string, port: nat, path: string)

  datatype TaskKind = NewSession | DelSession | NewListener | DelListener | ExitLoop | AddConn | DelConn | Unsupported

  /** The `any` in a message: a socket, connection data, or something else. */
  datatype Body = Fd(fd: int) | Info(info: ConnInfo) | Other

  datatype Task = Task(kind: TaskKind, body: Body)

  /** The largest value of an eventfd counter. A write that would pass it fails. */
  const EVENTFD_MAX: nat := 0xffff_ffff_ffff_fffe

  function Signalled(counter: nat): nat {
    if counter < EVENTFD_MAX then counter + 1 else counter
  }

  /** A session that was in the map before, or the `n`-th one made since. */
  datatype Origin = Kept | Made(n: nat)

  datatype LoopState = LoopState(sessions: map<int, Origin>, made: nat, conns: seq<ConnInfo>,
                                 listeners: seq<ConnInfo>, stopped: bool)

  predicate Connectable(info: ConnInfo) {
    info.kind != Unknown
  }

  function Execute(s: LoopState, t: Task): LoopState {
    match (t.kind, t.body)
    case (NewSession, Fd(fd)) => s.(sessions := s.sessions[fd := Made(s.made)], made := s.made + 1)
    case (DelSession, Fd(fd)) => s.(sessions := s.sessions - {fd})
    case (NewListener, Info(info)) => s.(listeners := s.listeners + [info])
    case (AddConn, Info(info)) => if Connectable(info) then s.(conns := s.conns + [info]) else s
    case (ExitLoop, _) => s.(stopped := true)
    case _ => s
  }

  function Fold(s: LoopState, ts: seq<Task>): LoopState
    decreases |ts|
  {
    if ts == [] then s else Fold(Execute(s, ts[0]), ts[1..])
  }

  lemma FoldNothing(s: LoopState)
    ensures Fold(s, []) == s
  {
  }

  lemma {:induction false} FoldAppend(s: LoopState, a: seq<Task>, b: seq<Task>)
    ensures Fold(s, a + b) == Fold(Fold(s, a), b)
    decreases |a|
  {
    if a == [] {
      assert a + b == b;
    } else {
      assert (a + b)[1..] == a[1..] + b;
      FoldAppend(Execute(s, a[0]), a[1..], b);
    }
  }

  function FoldBatches(s: LoopState, batches: seq<seq<Task>>): LoopState
    decreases |batches|
  {
    if batches == [] then s else FoldBatches(Fold(s, batches[0]), batches[1..])
  }

  /** However the tasks are divided into batches, the loop thread ends in the state that
      handling them one at a time gives. */
  lemma {:induction false} BatchingDoesNotMatter(s: LoopState, batches: seq<seq<Task>>)
    ensures FoldBatches(s, batches) == Fold(s, Bytes.Concat(batches))
    decreases |batches|
  {
    if batches != [] {
      BatchingDoesNotMatter(Fold(s, batches[0]), batches[1..]);
      FoldAppend(s, batches[0], Bytes.Concat(batches[1..]));
    }
  }

  lemma {:induction false} FoldLast(s: LoopState, a: seq<Task>, t: Task)
    ensures Fold(s, a + [t]) == Execute(Fold(s, a), t)
  {
    FoldAppend(s, a, [t]);
    assert [t][1..] == [];
    assert Fold(Fold(s, a), [t]) == Fold(Execute(Fold(s, a), t), []);
  }

  /** One more task of a batch. */
  lemma FoldNext(s: LoopState, all: seq<Task>, k: nat)
    requires k < |all|
    ensures all[k..][0] == all[k] && all[k..][1..] == all[k + 1..]
    ensures Fold(s, all[..k + 1]) == Execute(Fold(s, all[..k]), all[k])
  {
    hide Execute, Fold;
    FoldLast(s, all[..k], all[k]);
    assert all[..k + 1] == all[..k] + [all[k]];
  }

  // ---- What the fold amounts to ----

  predicate Opens(t: Task, fd: int) {
    t == Task(NewSession, Fd(fd))
  }

  predicate Drops(t: Task, fd: int) {
    t == Task(DelSession, Fd(fd))
  }

  /** Opened by a task that no later one takes back, or there from the start and never dropped. */
  ghost predicate Survives(ts: seq<Task>, fd: int, before: bool) {
    || (before && forall j :: 0 <= j < |ts| ==> !Drops(ts[j], fd))
    || (exists k :: 0 <= k < |ts| && Opens(ts[k], fd) && forall j :: k < j < |ts| ==> !Drops(ts[j], fd))
  }

  /** The connections asked for in a well-formed message of a known kind, in their order. */
  function Wanted(ts: seq<Task>): seq<ConnInfo> {
    if ts == [] then []
    else Wanted(ts[..|ts| - 1]) + match ts[|ts| - 1]
                                  case Task(AddConn, Info(info)) =>
                                    if info.kind in {IpV4, IpV6, UnixSocket} then [info] else []
                                  case _ => []
  }

  /** The listeners asked for in a well-formed message, in their order. */
  function Listened(ts: seq<Task>): seq<ConnInfo> {
    if ts == [] then []
    else Listened(ts[..|ts| - 1]) + match ts[|ts| - 1]
                                    case Task(NewListener, Info(info)) => [info]
                                    case _ => []
  }

  /** Where among the messages the sessions and the connections are made. */
  function Openers(ts: seq<Task>): seq<nat> {
    if ts == [] then []
    else
      var n := |ts| - 1;
      Openers(ts[..n]) + if ts[n].kind == NewSession && ts[n].body.Fd? then [n] else []
  }

  predicate Joins(t: Task) {
    t.kind == AddConn && t.body.Info? && t.body.info.kind != Unknown
  }

  function Joiners(ts: seq<Task>): seq<nat> {
    if ts == [] then []
    else
      var n := |ts| - 1;
      Joiners(ts[..n]) + if Joins(ts[n]) then [n] else []
  }

  lemma SurvivesLast(ts: seq<Task>, t: Task, fd: int, before: bool)
    ensures Survives(ts + [t], fd, before) <==> Opens(t, fd) || (Survives(ts, fd, before) && !Drops(t, fd))
  {
    var us := ts + [t];
    assert forall j :: 0 <= j < |ts| ==> us[j] == ts[j];
    assert us[|ts|] == t;
    if Opens(t, fd) {
      assert Opens(us[|ts|], fd);
    }
    if Survives(us, fd, before) && !Opens(t, fd) {
      assert !Drops(us[|ts|], fd) && Survives(ts, fd, before);
    }
    if k :| 0 <= k < |ts| && Opens(ts[k], fd) && forall j :: k < j < |ts| ==> !Drops(ts[j], fd) {
      assert Opens(us[k], fd);
    }
  }

  /** Which sessions there are, told from the tasks alone. */
  lemma {:induction false} SessionsMean(s: LoopState, ts: seq<Task>, fd: int)
    ensures fd in Fold(s, ts).sessions <==> Survives(ts, fd, fd in s.sessions)
    decreases |ts|
  {
    if ts != [] {
      hide Fold, Survives;
      var us, t := ts[..|ts| - 1], ts[|ts| - 1];
      assert ts == us + [t];
      SessionsMean(s, us, fd);
      FoldLast(s, us, t);
      SurvivesLast(us, t, fd, fd in s.sessions);
    }
  }

  /** Which connections there are, and whether the loop was stopped, told from the tasks alone. */
  lemma {:induction false} ConnsMean(s: LoopState, ts: seq<Task>)
    ensures Fold(s, ts).conns == s.conns + Wanted(ts)
    ensures Fold(s, ts).stopped <==> s.stopped || exists k :: 0 <= k < |ts| && ts[k].kind == ExitLoop
    decreases |ts|
  {
    if ts != [] {
      hide Fold;
      var us, t := ts[..|ts| - 1], ts[|ts| - 1];
      assert ts == us + [t];
      ConnsMean(s, us);
      FoldLast(s, us, t);
      hide Execute, Wanted;
      if k :| 0 <= k < |us| && us[k].kind == ExitLoop {
        assert ts[k].kind == ExitLoop;
      }
      assert Fold(s, ts).conns == s.conns + Wanted(ts) by { WantedLast(s, Fold(s, us), us, t); }
      assert Fold(s, ts).stopped <==> Fold(s, us).stopped || t.kind == ExitLoop by { StopsForGood(Fold(s, us), t); }
    }
  }

  lemma WantedLast(s: LoopState, f: LoopState, us: seq<Task>, t: Task)
    requires f.conns == s.conns + Wanted(us)
    ensures Execute(f, t).conns == s.conns + Wanted(us + [t])
  {
    assert (us + [t])[..|us|] == us;
  }

  lemma StopsForGood(l: LoopState, t: Task)
    ensures l.stopped ==> Execute(l, t).stopped
    ensures Execute(l, t).stopped <==> l.stopped || t.kind == ExitLoop
  {
  }

  /** Which listeners there are, told from the tasks alone. */
  lemma {:induction false} ListenersMean(s: LoopState, ts: seq<Task>)
    ensures Fold(s, ts).listeners == s.listeners + Listened(ts)
    decreases |ts|
  {
    if ts != [] {
      hide Fold;
      var us, t := ts[..|ts| - 1], ts[|ts| - 1];
      assert ts == us + [t];
      ListenersMean(s, us);
      FoldLast(s, us, t);
    }
  }

  /** One more task of a batch makes a session, or a connection, or neither. */
  lemma OpenersNext(all: seq<Task>, k: nat)
    requires k < |all|
    ensures Openers(all[..k + 1])
            == Openers(all[..k]) + if all[k].kind == NewSession && all[k].body.Fd? then [k] else []
    ensures Joiners(all[..k + 1]) == Joiners(all[..k]) + if Joins(all[k]) then [k] else []
  {
    assert all[..k + 1][..k] == all[..k];
  }

  /** No message from number `k` on is about the session under this socket. */
  predicate Quiet(ts: seq<Task>, k: nat, fd: int) {
    forall j :: k <= j < |ts| ==> !Opens(ts[j], fd) && !Drops(ts[j], fd)
  }

  /** The session is the one made by message `k`, the last about this socket. */
  predicate MadeBy(ts: seq<Task>, k: nat, fd: int) {
    k < |ts| && Opens(ts[k], fd) && Quiet(ts, k + 1, fd)
  }

  lemma {:induction false} MadeCount(s: LoopState, ts: seq<Task>)
    ensures Fold(s, ts).made == s.made + |Openers(ts)|
    ensures |Fold(s, ts).conns| == |s.conns| + |Joiners(ts)|
    decreases |ts|
  {
    if ts != [] {
      hide Fold;
      var us, t := ts[..|ts| - 1], ts[|ts| - 1];
      assert ts == us + [t];
      MadeCount(s, us);
      FoldLast(s, us, t);
    }
  }

  lemma QuietLast(us: seq<Task>, t: Task, k: nat, fd: int)
    requires k <= |us| && !Opens(t, fd) && !Drops(t, fd)
    ensures Quiet(us, k, fd) ==> Quiet(us + [t], k, fd)
    ensures k < |us| && MadeBy(us, k, fd) ==> MadeBy(us + [t], k, fd)
  {
  }

  /** Where a session comes from, if it was `o` that the fold gives. */
  predicate ComesFrom(s: LoopState, ts: seq<Task>, fd: int, o: Origin) {
    || (fd in s.sessions && o == s.sessions[fd] && Quiet(ts, 0, fd))
    || (o.Made? && s.made <= o.n < s.made + |Openers(ts)| && MadeBy(ts, Openers(ts)[o.n - s.made], fd))
  }

  lemma ComesFromLast(s: LoopState, us: seq<Task>, t: Task, fd: int, o: Origin)
    requires ComesFrom(s, us, fd, o) && !Opens(t, fd) && !Drops(t, fd)
    ensures ComesFrom(s, us + [t], fd, o)
  {
    var ts := us + [t];
    assert ts[..|ts| - 1] == us && Openers(us) <= Openers(ts);
    QuietLast(us, t, 0, fd);
    if o.Made? && s.made <= o.n < s.made + |Openers(us)| && MadeBy(us, Openers(us)[o.n - s.made], fd) {
      QuietLast(us, t, Openers(us)[o.n - s.made], fd);
    }
  }

  /** What the map holds under a socket was made by the last message about it, or there is none and it
      was there before; and each session and each connection is made by a message of its own, in
      their order (`MadeCount`). */
  lemma {:induction false} MadeMean(s: LoopState, ts: seq<Task>, fd: int)
    requires fd in Fold(s, ts).sessions
    ensures ComesFrom(s, ts, fd, Fold(s, ts).sessions[fd])
    decreases |ts|
  {
    if ts != [] {
      var us, t := ts[..|ts| - 1], ts[|ts| - 1];
      assert ts == us + [t];
      hide Fold;
      FoldLast(s, us, t);
      MadeCount(s, us);
      if Opens(t, fd) {
        assert Openers(ts) == Openers(us) + [|us|];
        assert MadeBy(ts, |us|, fd);
      } else {
        assert fd in Fold(s, us).sessions && !Drops(t, fd);
        MadeMean(s, us, fd);
        hide ComesFrom;
        ComesFromLast(s, us, t, fd, Fold(s, us).sessions[fd]);
      }
    }
  }
}
