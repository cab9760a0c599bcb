/** How a framed request finds a backend connection: the callback of `TcpSession::onRead`
    (src/tcp_session.cpp:30-64), with its 16-bit retry counter and its 32-bit id counter. */
module Dispatch {
  import opened Bytes
  import Modular

  const U16: nat := 0x1_0000
  const U32: nat := 0x1_0000_0000

  /** A backend connection: connected and with its bufferevent alive, the bytes received and
      not yet drained, the sessions that wait for a reply, and what was written for whom. */
  datatype Conn<S> = Conn(connected: bool, alive: bool, input: Text, fifo: seq<S>, written: seq<Text>, owners: seq<S>)

  /** The probes of one request: the 16-bit counter starts at `n + 1` and the loop ends when it
      is 0 behind a decrement, so 65536 stands for 0. */
  function Probes(n: nat): (p: nat)
    ensures 0 < p <= U16
  {
    n % U16 + 1
  }

  /** The 32-bit id counter `k` ids later. */
  function IdAt(g: nat, k: nat): (id: nat)
    ensures id < U32
  {
    (g + k) % U32
  }

  /** The connection of an id. */
  function Pick(id: nat, n: nat): (i: nat)
    requires 0 < n
    ensures i < n
  {
    id % n
  }

  /** The connection tried at probe `k` when the id counter stands at `g`. */
  function Slot(n: nat, g: nat, k: nat): (i: nat)
    requires 0 < n
    ensures i < n
  {
    Pick(IdAt(g, k), n)
  }

  /** `accept(k)` is the answer of `send` at probe `k`. */
  predicate Takes<S>(conns: seq<Conn<S>>, g: nat, accept: nat -> bool, k: nat)
    requires conns != []
  {
    var c := conns[Slot(|conns|, g, k)];
    c.connected && c.alive && accept(k)
  }

  /** The first probe from `k` on that hands the request over, or `Probes(n)`. */
  function Search<S>(conns: seq<Conn<S>>, g: nat, accept: nat -> bool, k: nat): (r: nat)
    requires conns != [] && k <= Probes(|conns|)
    ensures k <= r <= Probes(|conns|)
    ensures r < Probes(|conns|) ==> Takes(conns, g, accept, r)
    ensures forall j :: k <= j < r ==> !Takes(conns, g, accept, j)
    decreases Probes(|conns|) - k
  {
    if k == Probes(|conns|) || Takes(conns, g, accept, k) then k else Search(conns, g, accept, k + 1)
  }

  /** The connections and the id counter behind one request. */
  datatype Placed<S> = Placed(conns: seq<Conn<S>>, ids: nat, slot: Option<nat>)

  function Hand<S>(c: Conn<S>, who: S, segment: Text): Conn<S> {
    c.(fifo := c.fifo + [who], written := c.written + [segment], owners := c.owners + [who])
  }

  function Place<S>(conns: seq<Conn<S>>, g: nat, who: S, segment: Text, accept: nat -> bool): (p: Placed<S>)
    ensures |p.conns| == |conns|
  {
    if conns == [] then Placed(conns, g, None)
    else
      var n := |conns|;
      var r := Search(conns, g, accept, 0);
      if r == Probes(n) then Placed(conns, IdAt(g, r), None)
      else
        var i := Slot(n, g, r);
        Placed(conns[i := Hand(conns[i], who, segment)], IdAt(g, r + 1), Some(i))
  }

  /** Probe `k` of one request, number by number: its connection is connected, lives and takes the
      text. */
  predicate Willing<S>(conns: seq<Conn<S>>, g: nat, accept: nat -> bool, k: nat)
    requires conns != []
  {
    var c := conns[(g + k) % 0x1_0000_0000 % |conns|];
    c.connected && c.alive && accept(k)
  }

  lemma {:induction false} SearchExactly<S>(conns: seq<Conn<S>>, g: nat, accept: nat -> bool, k: nat, r: nat)
    requires conns != [] && k <= r <= Probes(|conns|)
    requires forall j :: k <= j < r ==> !Willing(conns, g, accept, j)
    requires r < Probes(|conns|) ==> Willing(conns, g, accept, r)
    ensures Search(conns, g, accept, k) == r
    decreases r - k
  {
    assert Slot(|conns|, g, k) == (g + k) % 0x1_0000_0000 % |conns|;
    assert Takes(conns, g, accept, k) <==> Willing(conns, g, accept, k);
    if k < r {
      SearchExactly(conns, g, accept, k + 1, r);
    }
  }

  /** The first willing one of `n % 65536 + 1` probes hands the request over: the text is written and
      the session goes to the end of that queue. The counter has moved on by one for each probe. */
  lemma PlacedAtFirstWilling<S>(conns: seq<Conn<S>>, g: nat, who: S, segment: Text, accept: nat -> bool, k: nat)
    requires conns != [] && k <= |conns| % 65536 && Willing(conns, g, accept, k)
    requires forall j :: 0 <= j < k ==> !Willing(conns, g, accept, j)
    ensures var i := (g + k) % 0x1_0000_0000 % |conns|;
            var c := conns[i];
            Place(conns, g, who, segment, accept)
            == Placed(conns[i := Conn(c.connected, c.alive, c.input, c.fifo + [who], c.written + [segment],
                                      c.owners + [who])],
                      (g + k + 1) % 0x1_0000_0000, Some(i))
  {
    SearchExactly(conns, g, accept, 0, k);
    hide Search, Takes;
  }

  /** If none of them is willing, or there is no connection, nothing happens but to the counter. */
  lemma PlacedNowhere<S>(conns: seq<Conn<S>>, g: nat, who: S, segment: Text, accept: nat -> bool)
    requires conns != [] ==> forall j :: 0 <= j <= |conns| % 65536 ==> !Willing(conns, g, accept, j)
    ensures Place(conns, g, who, segment, accept)
            == Placed(conns, if conns == [] then g else (g + |conns| % 65536 + 1) % 0x1_0000_0000, None)
  {
    if conns != [] {
      SearchExactly(conns, g, accept, 0, Probes(|conns|));
    }
  }

  /** A request only ever goes to a connection that is connected and lives. */
  lemma SlotIsUp<S>(conns: seq<Conn<S>>, g: nat, who: S, segment: Text, accept: nat -> bool)
    ensures var slot := Place(conns, g, who, segment, accept).slot;
            slot.Some? ==> slot.value < |conns| && conns[slot.value].connected && conns[slot.value].alive
  {
  }

  // ---- Which connections one request tries ----

  ghost predicate Covers(n: nat, g: nat)
    requires 0 < n
  {
    forall i :: 0 <= i < n ==> Probed(n, g, i)
  }

  ghost predicate Probed(n: nat, g: nat, i: nat)
    requires 0 < n
  {
    exists k :: 0 <= k < Probes(n) && Slot(n, g, k) == i
  }

  /** Before and behind the wrap of the id counter. */
  lemma SlotValue(n: nat, g: nat, k: nat)
    requires 0 < n && g < U32 && k < U32
    ensures Slot(n, g, k) == if k < U32 - g then (g + k) % n else (k - (U32 - g)) % n
  {
  }

  /** No wrap in the first `n` ids. */
  lemma CoveredWithoutWrap(n: nat, g: nat, i: nat)
    requires i < n < U16 && g < U32 && U32 - g >= n
    ensures Probed(n, g, i)
  {
    hide Slot;
    var k := if g % n <= i then i - g % n else n - g % n + i;
    SlotValue(n, g, k);
    Modular.AddSmall(g, k, n);
    assert Slot(n, g, k) == i;
  }

  lemma CoveredBehindWrap(n: nat, g: nat, i: nat)
    requires i < n < U16 && g < U32 && i <= n - (U32 - g)
    ensures Probed(n, g, i)
  {
    hide Slot;
    var k := U32 - g + i;
    SlotValue(n, g, k);
    Modular.DivMod(i, n, 0, i);
    assert Slot(n, g, k) == i;
  }

  /** What the ids before the wrap hit. */
  lemma SlotBeforeWrap(n: nat, g: nat, k: nat)
    requires 0 < n && g < U32 && k < U32 - g < n
    ensures var j := U32 % n + k - (U32 - g);
            Slot(n, g, k) == if j >= 0 then j else n + j
  {
    hide Slot;
    SlotValue(n, g, k);
    Modular.SubSmall(U32, U32 - g - k, n);
  }

  lemma CoveredAcrossWrap(n: nat, g: nat, i: nat)
    requires i < n < U16 && g < U32 && U32 % n <= 1
    requires U32 - g < n && n - (U32 - g) < i
    ensures Probed(n, g, i)
  {
    hide Slot;
    var k := i + (U32 - g) - n - U32 % n;
    SlotBeforeWrap(n, g, k);
    assert Slot(n, g, k) == i;
  }

  /** Otherwise the ids of one request skip a connection. */
  lemma SkippedAcrossWrap(n: nat, g: nat) returns (i: nat)
    requires 0 < n < U16 && g < U32 && 2 <= U32 - g < n && 2 <= U32 % n
    ensures i < n && !Probed(n, g, i)
  {
    hide Slot;
    var w, r := U32 - g, U32 % n;
    i := if w <= r then n - 1 else n + r - w - 1;
    forall k | 0 <= k < Probes(n) ensures Slot(n, g, k) != i {
      if k < w {
        SlotBeforeWrap(n, g, k);
      } else {
        SlotValue(n, g, k);
        Modular.DivMod(k - w, n, 0, k - w);
      }
    }
  }

  function Hits(n: nat, g: nat, p: nat): (s: set<nat>)
    requires 0 < n
    ensures |s| <= p && forall k :: 0 <= k < p ==> Slot(n, g, k) in s
  {
    if p == 0 then {} else Hits(n, g, p - 1) + {Slot(n, g, p - 1)}
  }

  function UpTo(n: nat): (s: set<nat>)
    ensures |s| == n && forall j :: j in s ==> j < n
  {
    if n == 0 then {} else UpTo(n - 1) + {n - 1}
  }

  lemma SubsetCount(a: set<nat>, b: set<nat>)
    ensures a <= b ==> |a| <= |b|
  {
    if a <= b {
      assert b == a + (b - a);
    }
  }

  lemma FewProbes(n: nat)
    requires U16 <= n
    ensures Probes(n) < n
  {
    if n == U16 {
      Modular.DivMod(n, U16, 1, 0);
    }
  }

  /** Fewer probes than connections: some connection is not tried. */
  lemma SkippedByCount(n: nat, g: nat) returns (i: nat)
    requires U16 <= n
    ensures i < n && !Probed(n, g, i)
  {
    FewProbes(n);
    hide Slot, Probes;
    var all, hit := UpTo(n), Hits(n, g, Probes(n));
    SubsetCount(all, hit);
    i :| i in all && i !in hit;
  }

  /** Every connection is tried exactly when there are fewer than 65536 of them and the id
      counter does not wrap within `n` ids, or wraps at once, or `n` divides 2^32 or 2^32 - 1. */
  lemma CoversExactly(n: nat, g: nat)
    requires 0 < n && g < U32
    ensures Covers(n, g) <==> n < U16 && (U32 - g >= n || U32 - g == 1 || U32 % n <= 1)
  {
    if n >= U16 {
      var i := SkippedByCount(n, g);
    } else if U32 - g >= n {
      forall i | 0 <= i < n ensures Probed(n, g, i) { CoveredWithoutWrap(n, g, i); }
    } else if U32 - g == 1 || U32 % n <= 1 {
      forall i | 0 <= i < n ensures Probed(n, g, i) {
        if i <= n - (U32 - g) {
          CoveredBehindWrap(n, g, i);
        } else {
          CoveredAcrossWrap(n, g, i);
        }
      }
    } else {
      var i := SkippedAcrossWrap(n, g);
    }
  }

  // ---- Whether a request is handed over ----

  /** A connection that answers `send` in one way for the whole request. */
  ghost predicate Steady(n: nat, g: nat, accept: nat -> bool, willing: nat -> bool)
    requires 0 < n
  {
    forall k :: 0 <= k < Probes(n) ==> accept(k) == willing(Slot(n, g, k))
  }

  /** If every connection is tried, the request is handed over exactly when some connected
      one accepts it. */
  lemma HandedOverExactly<S>(conns: seq<Conn<S>>, g: nat, who: S, segment: Text,
                             accept: nat -> bool, willing: nat -> bool)
    requires conns != [] && Covers(|conns|, g) && Steady(|conns|, g, accept, willing)
    ensures Place(conns, g, who, segment, accept).slot.Some?
            <==> exists i :: 0 <= i < |conns| && conns[i].connected && conns[i].alive && willing(i)
  {
    var n, r := |conns|, Search(conns, g, accept, 0);
    if r < Probes(n) {
      assert conns[Slot(n, g, r)].connected && willing(Slot(n, g, r));
    }
    if i :| 0 <= i < n && conns[i].connected && conns[i].alive && willing(i) {
      assert Probed(n, g, i);
      var k :| 0 <= k < Probes(n) && Slot(n, g, k) == i;
      assert Takes(conns, g, accept, k);
    }
  }

  /** No request is dropped while one of `n` connections is up and would take it. */
  ghost predicate NeverDrops(n: nat, g: nat)
    requires 0 < n
  {
    forall conns: seq<Conn<int>>, i: nat | |conns| == n && i < n && conns[i].connected && conns[i].alive ::
      Search(conns, g, (_: nat) => true, 0) < Probes(n)
  }

  /** The exact condition for that. Six connections fail it: for a counter of 2^32 - 5 the
      request skips one, and with only that one up it is dropped. */
  lemma NeverDropsExactly(n: nat, g: nat)
    requires 0 < n && g < U32
    ensures NeverDrops(n, g) <==> n < 65536 && (g + n <= 4294967296 || g == 4294967295 || 4294967296 % n <= 1)
  {
    CoversExactly(n, g);
    var always := (_: nat) => true;
    if Covers(n, g) {
      forall conns: seq<Conn<int>>, i: nat | |conns| == n && i < n && conns[i].connected && conns[i].alive
        ensures Search(conns, g, always, 0) < Probes(n)
      {
        HandedOverExactly(conns, g, 0, [], always, always);
      }
    } else {
      var i :| 0 <= i < n && !Probed(n, g, i);
      var conns: seq<Conn<int>> := seq(n, j => Conn(j == i, true, [], [], [], []));
      assert conns[i].connected && conns[i].alive;
      var r := Search(conns, g, always, 0);
      assert r < Probes(n) ==> Slot(n, g, r) == i;
    }
  }
}
