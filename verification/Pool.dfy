/** `include/loop_thread_pool.hpp`: the loop threads, the turn in which they are chosen, and
    messages for all of them. */
module Pool {
  import opened Dispatch
  import Modular
  import Tasks
  import Relay

  class LoopThreadPool {
    var loopThreads: seq<Relay.LoopThread>
    const loopNum: nat
    var selectIndex: nat

    constructor (loopNum: nat)
      ensures this.loopNum == loopNum && selectIndex == 0 && loopThreads == []
    {
      this.loopNum := loopNum;
      selectIndex, loopThreads := 0, [];
    }

    method AddLoop(loop: Relay.LoopThread)
      modifies this`loopThreads
      ensures loopThreads == old(loopThreads) + [loop]
    {
      loopThreads := loopThreads + [loop];
    }

    /** The 32-bit index is advanced first. */
    method GetLoopThread() returns (loop: Relay.LoopThread)
      requires 0 < loopNum <= |loopThreads| && selectIndex < U32
      modifies this`selectIndex
      ensures selectIndex == if old(selectIndex) == 0xffff_ffff then 0 else old(selectIndex) + 1
      ensures loop == loopThreads[selectIndex % loopNum]
      ensures selectIndex == IdAt(old(selectIndex), 1) && selectIndex % loopNum == Slot(loopNum, old(selectIndex), 1)
    {
      selectIndex := (selectIndex + 1) % U32;
      var index := selectIndex % loopNum;
      return loopThreads[index];
    }

    method SendToAll(task: Tasks.Task)
      requires forall i, j :: 0 <= i < j < |loopThreads| ==> loopThreads[i] != loopThreads[j]
      modifies (set l | l in loopThreads)`taskQueue, (set l | l in loopThreads)`counter
      ensures forall i :: 0 <= i < |loopThreads| ==>
                && loopThreads[i].taskQueue == old(loopThreads[i].taskQueue) + [task]
                && loopThreads[i].counter == if loopThreads[i].evfd == 0 then old(loopThreads[i].counter)
                                             else Tasks.Signalled(old(loopThreads[i].counter))
    {
      for i := 0 to |loopThreads|
        invariant forall j :: 0 <= j < i ==>
                    && loopThreads[j].taskQueue == old(loopThreads[j].taskQueue) + [task]
                    && loopThreads[j].counter == if loopThreads[j].evfd == 0 then old(loopThreads[j].counter)
                                                 else Tasks.Signalled(old(loopThreads[j].counter))
        invariant forall j :: i <= j < |loopThreads| ==>
                    && loopThreads[j].taskQueue == old(loopThreads[j].taskQueue)
                    && loopThreads[j].counter == old(loopThreads[j].counter)
      {
        var ok := loopThreads[i].Send2LoopThread(task);
      }
    }
  }

  /** How often thread `i` of `n` is chosen by `m` calls when the index stands at `g`. */
  function Turns(n: nat, g: nat, m: nat, i: nat): nat
    requires 0 < n
  {
    if m == 0 then 0 else Turns(n, g, m - 1, i) + if Slot(n, g, m) == i then 1 else 0
  }

  /** Every thread is chosen m / n times, rounded down or up. */
  predicate Balanced(n: nat, g: nat, m: nat)
    requires 0 < n
  {
    forall i :: 0 <= i < n ==> m / n <= Turns(n, g, m, i) <= (m + n - 1) / n
  }

  /** The index does not wrap in the window, or a wrap does not show. */
  predicate Smooth(n: nat, g: nat, m: nat)
    requires 0 < n
  {
    g + m < U32 || U32 % n == 0
  }

  lemma SmoothSlot(n: nat, g: nat, m: nat)
    requires 0 < n && g < U32 && Smooth(n, g, m)
    ensures Slot(n, g, m) == (g + m) % n
  {
    if g + m >= U32 {
      Modular.ModMod(g + m, U32, n);
    }
  }

  /** The numbers below `x` that leave `i`. */
  function Below(n: nat, i: nat, x: nat): nat
    requires i < n
  {
    (x + (n - 1 - i)) / n
  }

  lemma BelowStep(n: nat, i: nat, x: nat)
    requires i < n
    ensures Below(n, i, x + 1) == Below(n, i, x) + if x % n == i then 1 else 0
  {
    Modular.AddSmall(x, n - 1 - i, n);
    Modular.AddSmall(x, n - i, n);
    assert x + 1 + (n - 1 - i) == x + (n - i);
  }

  lemma {:induction false} TurnsAre(n: nat, g: nat, m: nat, i: nat)
    requires i < n && g < U32 && Smooth(n, g, m)
    ensures Turns(n, g, m, i) == Below(n, i, g + m + 1) - Below(n, i, g + 1)
  {
    if m > 0 {
      TurnsAre(n, g, m - 1, i);
      SmoothSlot(n, g, m);
      BelowStep(n, i, g + m);
    }
  }

  /** Any `m` numbers in a row hit a remainder m / n times, rounded down or up. */
  lemma RowCount(n: nat, a: nat, m: nat)
    requires 0 < n
    ensures m / n <= (a + m) / n - a / n <= (m + n - 1) / n
  {
    var q, t := m / n, m % n;
    assert m == t + q * n;
    Modular.AddMultiple(a + t, q, n);
    assert a + m == (a + t) + q * n;
    Modular.AddSmall(a, t, n);
    Modular.AddMultiple(t + (n - 1), q, n);
    assert m + n - 1 == (t + (n - 1)) + q * n;
    Modular.DivMod(t + (n - 1), n, if t == 0 then 0 else 1, if t == 0 then n - 1 else t - 1);
  }

  /** A window of calls is balanced if the index does not wrap in it. */
  lemma BalancedWithoutWrap(n: nat, g: nat, m: nat)
    requires 0 < n && g < U32 && Smooth(n, g, m)
    ensures Balanced(n, g, m)
  {
    forall i | 0 <= i < n ensures m / n <= Turns(n, g, m, i) <= (m + n - 1) / n {
      TurnsAre(n, g, m, i);
      RowCount(n, g + 1 + (n - 1 - i), m);
    }
  }

  /** All windows, over the wrap too, are balanced exactly when `n` divides 2^32. */
  lemma AlwaysBalancedExactly(n: nat)
    requires 0 < n <= U32
    ensures (forall g, m :: 0 <= g < U32 && 0 <= m ==> Balanced(n, g, m)) <==> U32 % n == 0
  {
    if U32 % n == 0 {
      forall g, m | 0 <= g < U32 && 0 <= m ensures Balanced(n, g, m) {
        BalancedWithoutWrap(n, g, m);
      }
    } else {
      var r := U32 % n;
      var g := U32 - r - 1;
      TwiceInARow(n, r);
      assert !Balanced(n, g, r + 1);
    }
  }

  /** From the last multiple of `n` before the wrap to the 0 behind it: thread 0 comes first
      and last, in fewer calls than there are threads. */
  lemma TwiceInARow(n: nat, r: nat)
    requires 0 < r < n <= U32 && r == U32 % n
    ensures var g := U32 - r - 1;
            Turns(n, g, r + 1, 0) >= 2 && (r + 1 + n - 1) / n <= 1
  {
    var g := U32 - r - 1;
    Modular.SubSmall(U32, r, n);
    assert IdAt(g, 1) == U32 - r && IdAt(g, r + 1) == 0;
    assert Slot(n, g, 1) == 0 && Slot(n, g, r + 1) == 0;
    TurnsGrow(n, g, 1, r, 0);
    assert Turns(n, g, 1, 0) == Turns(n, g, 0, 0) + 1;
    Modular.DivMod(r + n, n, 1, r);
  }

  lemma {:induction false} TurnsGrow(n: nat, g: nat, k: nat, m: nat, i: nat)
    requires 0 < n && k <= m
    ensures Turns(n, g, k, i) <= Turns(n, g, m, i)
  {
    if k < m {
      TurnsGrow(n, g, k, m - 1, i);
    }
  }
}
