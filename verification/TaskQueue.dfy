/** The task queue of a loop thread and its eventfd, with any number of producers
    (include/loop_thread.hpp:43-54, include/eventfd_client.hpp:29-38) and the loop thread as
    the one consumer (src/loop_thread.cpp:5-20, 199-212), step by step in every interleaving. */
module TaskQueue {
  import opened Bytes
  import opened Tasks

  /** Where the producer that holds the lock stands in `send2loop_thread`. */
  datatype Phase = ToPush(task: Task) | ToCheck | ToSignal | ToRelease

  datatype Hold = Hold(producer: nat, phase: Phase)

  /** Where the loop thread stands: in its event loop, between the read of the eventfd and the
      swap, or with the rest of a swapped-out batch. */
  datatype Consumer = Waiting | ToSwap | Running(batch: seq<Task>)

  /** `pushed` and `done` are history. `missed` says that a task pushed since the last swap
      found no eventfd, `early` that any task ever did. */
  datatype State = State(queue: seq<Task>, counter: nat, started: bool, lock: Option<Hold>, consumer: Consumer,
                         pushed: seq<Task>, done: seq<Task>, missed: bool, early: bool, loop: LoopState)

  const FRESH: LoopState := LoopState(map[], 0, [], [], false)

  const INIT: State := State([], 0, false, None, Waiting, [], [], false, false, FRESH)

  /** The eventfd is there: behind `init` and before `stop`. */
  predicate Alive(s: State) {
    s.started && !s.loop.stopped
  }

  datatype Event =
    | Start                              // `init` makes the eventfd
    | Acquire(producer: nat, task: Task) // a producer gets the lock
    | Push | Check | Signal | Release    // the producer with the lock goes on
    | ReadCounter | Swap | Handle        // the loop thread goes on

  predicate At(s: State, phase: Phase) {
    s.lock.Some? && s.lock.value.phase == phase
  }

  predicate Enabled(s: State, e: Event) {
    match e
    case Start => !s.started
    case Acquire(_, _) => s.lock == None
    case Push => s.lock.Some? && s.lock.value.phase.ToPush?
    case Check => At(s, ToCheck)
    case Signal => At(s, ToSignal)
    case Release => At(s, ToRelease)
    case ReadCounter => s.consumer == Waiting && Alive(s) && s.counter > 0
    case Swap => s.consumer == ToSwap && s.lock == None
    case Handle => s.consumer.Running? && s.consumer.batch != []
  }

  function Rest(batch: seq<Task>): Consumer {
    if batch == [] then Waiting else Running(batch)
  }

  function Apply(s: State, e: Event): State
    requires Enabled(s, e)
  {
    match e
    case Start => s.(started := true)
    case Acquire(p, task) => s.(lock := Some(Hold(p, ToPush(task))))
    case Push =>
      var task := s.lock.value.phase.task;
      s.(queue := s.queue + [task], pushed := s.pushed + [task], lock := Some(s.lock.value.(phase := ToCheck)))
    case Check =>
      if Alive(s) then s.(lock := Some(s.lock.value.(phase := ToSignal)))
      else s.(lock := Some(s.lock.value.(phase := ToRelease)), missed := true, early := true)
    case Signal => s.(counter := Signalled(s.counter), lock := Some(s.lock.value.(phase := ToRelease)))
    case Release => s.(lock := None)
    case ReadCounter => s.(counter := 0, consumer := ToSwap)
    case Swap => s.(queue := [], consumer := Rest(s.queue), missed := false)
    case Handle =>
      var task := s.consumer.batch[0];
      s.(consumer := Rest(s.consumer.batch[1..]), done := s.done + [task], loop := Execute(s.loop, task))
  }

  ghost predicate Run(events: seq<Event>, s: State)
    decreases |events|
  {
    if events == [] then s == INIT
    else
      var before, last := events[..|events| - 1], events[|events| - 1];
      exists p :: Run(before, p) && Enabled(p, last) && s == Apply(p, last)
  }

  ghost predicate Reachable(s: State) {
    exists events :: Run(events, s)
  }

  function Batch(s: State): seq<Task> {
    if s.consumer.Running? then s.consumer.batch else []
  }

  /** Someone is on the way to wake the loop thread or it is awake already. */
  predicate Awake(s: State) {
    s.counter > 0 || s.consumer == ToSwap || At(s, ToCheck) || At(s, ToSignal)
  }

  predicate Inv(s: State) {
    && (s.queue != [] && !s.loop.stopped ==> Awake(s) || s.missed)
    && (s.missed ==> s.queue != [] && s.early)
    && (At(s, ToCheck) || At(s, ToSignal) ==> s.queue != [] || s.loop.stopped || Awake(s))
    && (At(s, ToCheck) ==> s.queue != [])
    && (s.consumer.Running? ==> s.consumer.batch != [])
    && s.done + Batch(s) + s.queue == s.pushed
    && s.loop == Fold(FRESH, s.done)
  }

  lemma StepKeeps(s: State, e: Event)
    requires Inv(s) && Enabled(s, e)
    ensures Inv(Apply(s, e))
  {
    hide Execute, Fold;
    var s' := Apply(s, e);
    match e
    case Push => PlusAssociates(s.done + Batch(s), s.queue, [s.lock.value.phase.task]);
    case Swap => assert s'.done + Batch(s') + s'.queue == s.done + Batch(s) + s.queue;
    case Handle =>
      var b := s.consumer.batch;
      FoldLast(FRESH, s.done, b[0]);
      assert s'.done + Batch(s') == s.done + b;
      StopsForGood(s.loop, b[0]);
    case _ =>
  }

  lemma {:induction false} RunKeeps(events: seq<Event>, s: State)
    requires Run(events, s)
    ensures Inv(s)
    decreases |events|
  {
    if events != [] {
      hide Inv, Apply, Enabled;
      var before, last := events[..|events| - 1], events[|events| - 1];
      var p :| Run(before, p) && Enabled(p, last) && s == Apply(p, last);
      RunKeeps(before, p);
      StepKeeps(p, last);
    }
  }

  // ---- The state, told from the events alone ----

  /** The tasks for which a producer has got the lock. */
  function Asked(events: seq<Event>): seq<Task> {
    if events == [] then []
    else
      var e := events[|events| - 1];
      Asked(events[..|events| - 1]) + if e.Acquire? then [e.task] else []
  }

  /** How many tasks the loop thread has handled. */
  function Handles(events: seq<Event>): nat {
    if events == [] then 0
    else Handles(events[..|events| - 1]) + if events[|events| - 1] == Handle then 1 else 0
  }

  /** An exit message is among the tasks handled. */
  predicate Exited(events: seq<Event>) {
    exists k :: 0 <= k < Handles(events) && k < |Asked(events)| && Asked(events)[k].kind == ExitLoop
  }

  /** There is an eventfd: `init` has been, and no exit message has been handled. */
  predicate Listening(events: seq<Event>) {
    Start in events && !Exited(events)
  }

  /** Event `k` is a producer that looks for the eventfd and finds none. */
  predicate Unheard(events: seq<Event>, k: nat)
    requires k < |events|
  {
    events[k] == Check && !Listening(events[..k])
  }

  /** The task in the hands of the producer with the lock. */
  function InHand(s: State): seq<Task> {
    if s.lock.Some? && s.lock.value.phase.ToPush? then [s.lock.value.phase.task] else []
  }

  predicate Told(events: seq<Event>, s: State) {
    && (s.started <==> Start in events)
    && s.pushed + InHand(s) == Asked(events)
    && |s.done| == Handles(events)
    && (s.loop.stopped <==> Exited(events))
    && (s.early <==> exists k :: 0 <= k < |events| && Unheard(events, k))
    && (s.missed <==> exists k :: 0 <= k < |events| && Unheard(events, k) && Swap !in events[k..])
  }

  lemma PlusNothing(ts: seq<Task>)
    ensures ts + [] == ts
  {
  }

  lemma PushedStep(p: State, e: Event)
    requires Enabled(p, e)
    ensures var s := Apply(p, e);
            s.pushed + InHand(s) == p.pushed + InHand(p) + if e.Acquire? then [e.task] else []
  {
    hide Execute;
    var s := Apply(p, e);
    PlusNothing(p.pushed);
    PlusNothing(p.pushed + InHand(p));
    if e == Push {
      PlusNothing(s.pushed);
    }
  }

  lemma AskedStep(before: seq<Event>, p: State, e: Event)
    requires Told(before, p) && Enabled(p, e)
    ensures var s, events := Apply(p, e), before + [e];
            && s.pushed + InHand(s) == Asked(events) && |s.done| == Handles(events)
            && (s.started <==> Start in events)
  {
    PushedStep(p, e);
    hide Exited, Execute, InHand, Unheard;
    var s, events := Apply(p, e), before + [e];
    assert events[..|events| - 1] == before && events[|events| - 1] == e;
  }

  lemma {:induction false} StopsWithExit(l: LoopState, ts: seq<Task>)
    ensures Fold(l, ts).stopped <==> l.stopped || exists k :: 0 <= k < |ts| && ts[k].kind == ExitLoop
  {
    ConnsMean(l, ts);
  }

  lemma DoneIsAsked(events: seq<Event>, s: State)
    requires Inv(s) && s.pushed + InHand(s) == Asked(events) && |s.done| == Handles(events)
    ensures s.loop.stopped <==> Exited(events)
  {
    StopsWithExit(FRESH, s.done);
    PlusAssociates(s.done, Batch(s), s.queue);
    assert s.done <= s.pushed <= Asked(events);
    hide Inv, Asked, Handles;
    assert forall k :: 0 <= k < |s.done| ==> Asked(events)[k] == s.done[k];
  }

  lemma UnheardStep(before: seq<Event>, p: State, e: Event)
    requires Told(before, p) && Enabled(p, e)
    ensures var s, events := Apply(p, e), before + [e];
            && (s.early <==> exists k :: 0 <= k < |events| && Unheard(events, k))
            && (s.missed <==> exists k :: 0 <= k < |events| && Unheard(events, k) && Swap !in events[k..])
  {
    hide Asked, Handles, Exited, Execute;
    var s, events, n := Apply(p, e), before + [e], |before|;
    forall k | 0 <= k < n
      ensures Unheard(events, k) <==> Unheard(before, k)
      ensures Swap in events[k..] <==> Swap in before[k..] || e == Swap
    {
      assert events[..k] == before[..k] && events[k..] == before[k..] + [e];
    }
    assert events[..n] == before && events[n..] == [e];
    assert Unheard(events, n) <==> e == Check && !Alive(p);
    if s.early && !Unheard(events, n) {
      var k :| 0 <= k < n && Unheard(before, k);
      assert Unheard(events, k);
    }
    if s.missed && !Unheard(events, n) {
      var k :| 0 <= k < n && Unheard(before, k) && Swap !in before[k..];
      assert Unheard(events, k) && Swap !in events[k..];
    }
  }

  lemma ToldStep(before: seq<Event>, p: State, e: Event)
    requires Told(before, p) && Inv(p) && Enabled(p, e)
    ensures Told(before + [e], Apply(p, e))
  {
    StepKeeps(p, e);
    AskedStep(before, p, e);
    UnheardStep(before, p, e);
    hide Inv, Apply, Enabled, Exited, Unheard, Asked, Handles, InHand;
    DoneIsAsked(before + [e], Apply(p, e));
  }

  /** What a run has come to: the tasks pushed and handled, whether there is an eventfd, and which
      producers found none, since the start (`early`) or since the last swap (`missed`). */
  lemma {:induction false} RunTold(events: seq<Event>, s: State)
    requires Run(events, s)
    ensures Told(events, s)
    decreases |events|
  {
    if events != [] {
      hide Inv, Apply, Enabled, Told;
      var before, last := events[..|events| - 1], events[|events| - 1];
      var p :| Run(before, p) && Enabled(p, last) && s == Apply(p, last);
      RunTold(before, p);
      RunKeeps(before, p);
      ToldStep(before, p, last);
      assert events == before + [last];
    }
  }

  /** Nobody holds the lock and the loop thread sleeps. */
  predicate Quiet(s: State) {
    s.lock == None && s.consumer == Waiting && s.counter == 0 && !s.loop.stopped
  }

  /** No wakeup is lost: in every interleaving, as long as no exit message has been handled, a
      waiting task means that the eventfd is readable, or the loop thread is about to swap, or the
      producer that pushed is about to signal, or a producer found no eventfd since the last swap.
      So a quiet state has an unhandled task exactly when that has happened. */
  lemma NoLostWakeup(events: seq<Event>, s: State)
    requires Run(events, s) && !Exited(events)
    ensures var unheard := exists k :: 0 <= k < |events| && Unheard(events, k) && Swap !in events[k..];
            && (s.queue != [] ==> Awake(s) || unheard)
            && (Quiet(s) ==> (s.done == Asked(events) <==> !unheard))
  {
    RunKeeps(events, s);
    RunTold(events, s);
    hide Run, Fold, Unheard, Asked, Handles, Exited;
    assert s.done + [] == s.done && s.pushed + [] == s.pushed;
    if Quiet(s) && s.queue != [] {
      assert |s.pushed| > |s.done|;
    }
  }

  lemma {:induction false} FewerBefore(events: seq<Event>, k: nat)
    requires k <= |events|
    ensures Handles(events[..k]) <= Handles(events) && Asked(events[..k]) <= Asked(events)
    decreases |events|
  {
    if k == |events| {
      assert events[..k] == events;
    } else {
      FewerBefore(events[..|events| - 1], k);
      assert events[..|events| - 1][..k] == events[..k];
    }
  }

  lemma NoExitBefore(events: seq<Event>, k: nat)
    requires k <= |events| && !Exited(events)
    ensures !Exited(events[..k])
  {
    FewerBefore(events, k);
    hide Asked, Handles;
    forall j | 0 <= j < Handles(events[..k]) && j < |Asked(events[..k])|
      ensures Asked(events[..k])[j].kind != ExitLoop
    {
      assert Asked(events[..k])[j] == Asked(events)[j];
    }
  }

  /** When the eventfd is made before anything is sent, and until an exit message is handled: every
      producer finds it, a waiting task always has someone awake for it, and whenever the loop
      thread sleeps and nobody sends, all tasks ever sent have been handled, in their order. */
  lemma AlwaysWoken(events: seq<Event>, s: State)
    requires Run(events, s) && events != [] && events[0] == Start && !Exited(events)
    ensures forall k :: 0 <= k < |events| ==> !Unheard(events, k)
    ensures s.queue != [] ==> Awake(s)
    ensures Quiet(s) ==> s.done == Asked(events)
  {
    hide Run, Asked, Handles;
    forall k | 0 <= k < |events| ensures !Unheard(events, k) {
      if events[k] == Check {
        NoExitBefore(events, k);
        assert events[..k][0] == Start;
      }
    }
    NoLostWakeup(events, s);
  }

  /** Every task pushed is handled once and in the order of pushing, however the queue was cut
      into batches, and the sessions, listeners and connections are what handling the tasks
      one at a time gives. */
  lemma ExactlyOnceInOrder(events: seq<Event>, s: State)
    requires Run(events, s)
    ensures s.done + Batch(s) + s.queue + InHand(s) == Asked(events)
    ensures s.loop == Fold(FRESH, s.done) && Handles(events) <= |Asked(events)|
    ensures s.done == Asked(events)[..Handles(events)]
  {
    RunKeeps(events, s);
    RunTold(events, s);
    hide Run, Fold, Exited, Unheard, Asked, Handles;
    PlusAssociates(s.done, Batch(s), s.queue);
    assert s.done <= s.pushed <= Asked(events);
  }

  // ---- What the loop thread does when the producers pause ----

  predicate NoExit(ts: seq<Task>) {
    forall k :: 0 <= k < |ts| ==> ts[k].kind != ExitLoop
  }

  /** The one step that is left: the producer with the lock goes on, or the loop thread, if it can. */
  function NextStep(s: State): Option<Event> {
    match s.lock
    case Some(Hold(_, ToPush(_))) => Some(Push)
    case Some(Hold(_, ToCheck)) => Some(Check)
    case Some(Hold(_, ToSignal)) => Some(Signal)
    case Some(Hold(_, ToRelease)) => Some(Release)
    case None =>
      match s.consumer
      case Waiting => if Enabled(s, ReadCounter) then Some(ReadCounter) else None
      case ToSwap => if Enabled(s, Swap) then Some(Swap) else None
      case Running(b) => if b != [] then Some(Handle) else None
  }

  function PhaseWork(s: State): nat {
    match s.lock
    case None => 0
    case Some(Hold(_, ToPush(_))) => 8
    case Some(Hold(_, ToCheck)) => 5
    case Some(Hold(_, ToSignal)) => 4
    case Some(Hold(_, ToRelease)) => 1
  }

  function Work(s: State): nat {
    2 * (|Batch(s)| + |s.queue|) + PhaseWork(s)
    + (if s.consumer == ToSwap then 1 else 0) + (if s.counter > 0 then 2 else 0)
  }

  /** The producer with the lock and the loop thread, until that sleeps. */
  function Settle(s: State): State
    decreases Work(s)
  {
    match NextStep(s)
    case None => s
    case Some(e) => Settle(Apply(s, e))
  }

  /** From every reachable state the producer with the lock gets to release it, and the loop thread
      then to handle every task sent so far, unless one is an exit or was sent without an
      eventfd. */
  lemma {:induction false} EverythingIsHandled(s: State)
    requires Reachable(s) && Alive(s) && !s.missed
    requires NoExit(Batch(s) + s.queue + InHand(s))
    ensures Reachable(Settle(s)) && Quiet(Settle(s))
    ensures Settle(s).done == s.pushed + InHand(s)
    decreases Work(s)
  {
    var events :| Run(events, s);
    RunKeeps(events, s);
    match NextStep(s)
    case None =>
      assert s.done + [] == s.done && s.pushed + [] == s.pushed;
    case Some(e) =>
      var s' := Apply(s, e);
      StillNoExit(s, e);
      hide Inv, Execute, Fold, Settle;
      assert (events + [e])[..|events|] == events;
      assert Run(events + [e], s');
      EverythingIsHandled(s');
      assert Settle(s) == Settle(s') by { SettleStep(s); }
  }

  lemma SettleStep(s: State)
    requires NextStep(s).Some?
    ensures Settle(s) == Settle(Apply(s, NextStep(s).value))
  {
  }

  lemma StillNoExit(s: State, e: Event)
    requires NextStep(s) == Some(e) && NoExit(Batch(s) + s.queue + InHand(s)) && Alive(s) && !s.missed
    ensures var s' := Apply(s, e);
            && NoExit(Batch(s') + s'.queue + InHand(s')) && Alive(s') && !s'.missed
            && s'.pushed + InHand(s') == s.pushed + InHand(s)
            && Work(s') < Work(s)
  {
    var s' := Apply(s, e);
    var all, all' := Batch(s) + s.queue + InHand(s), Batch(s') + s'.queue + InHand(s');
    if e == Handle {
      StopsForGood(s.loop, s.consumer.batch[0]);
      assert all[0] == s.consumer.batch[0];
      assert all' == all[1..];
    } else {
      assert all' == all;
      if e == Push {
        assert s.pushed + InHand(s) == s'.pushed + [];
      }
    }
  }
}
