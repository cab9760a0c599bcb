/** What the two `onRead` methods do to the connections: requests go out to a connection each,
    replies go to the sessions at the front of the queue. */
module Exchange {
  import opened Bytes
  import Dispatch

  /** The texts at the places where `who` stands. */
  function PickFor<S(==)>(places: seq<S>, texts: seq<Text>, who: S): seq<Text> {
    if places == [] || texts == [] then []
    else (if places[0] == who then [texts[0]] else []) + PickFor(places[1..], texts[1..], who)
  }

  lemma {:induction false} PickForAppend<S>(p: seq<S>, t: seq<Text>, p': seq<S>, t': seq<Text>, who: S)
    requires |p| == |t|
    ensures PickFor(p + p', t + t', who) == PickFor(p, t, who) + PickFor(p', t', who)
  {
    if p == [] {
      assert p + p' == p' && t + t' == t';
    } else {
      assert (p + p')[1..] == p[1..] + p' && (t + t')[1..] == t[1..] + t';
      PickForAppend(p[1..], t[1..], p', t', who);
    }
  }

  lemma PickForOne<S>(p: seq<S>, t: seq<Text>, q: S, u: Text, who: S)
    requires |p| == |t|
    ensures PickFor(p + [q], t + [u], who) == PickFor(p, t, who) + if q == who then [u] else []
  {
    PickForAppend(p, t, [q], [u], who);
  }

  /** The answers of `send` while segment `j` is placed. */
  function Row(accept: (nat, nat) -> bool, j: nat): (r: nat -> bool)
    ensures forall k :: r(k) == accept(j, k)
  {
    (k: nat) => accept(j, k)
  }

  datatype Forwarded<S> = Forwarded(conns: seq<Dispatch.Conn<S>>, ids: nat)

  /** The segments from number `j` on are placed one by one. */
  function ForwardAll<S>(conns: seq<Dispatch.Conn<S>>, ids: nat, who: S, segments: seq<Text>,
                         accept: (nat, nat) -> bool, j: nat): Forwarded<S>
    requires j <= |segments|
    decreases |segments| - j
  {
    if j == |segments| then Forwarded(conns, ids)
    else
      var p := Dispatch.Place(conns, ids, who, segments[j], Row(accept, j));
      ForwardAll(p.conns, p.ids, who, segments, accept, j + 1)
  }

  /** The first `n` replies given to the sessions at the front of the queue: the texts that each
      session has been sent, where a session outside `open` is sent nothing and `accept(k)` is
      what the bufferevent answers to the write of reply `k`. */
  function GiveAll<S>(texts: map<S, seq<Text>>, open: set<S>, queue: seq<S>, replies: seq<Text>,
                      accept: nat -> bool, n: nat): map<S, seq<Text>>
    requires n <= |replies| && n <= |queue|
  {
    if n == 0 then texts
    else GiveOne(GiveAll(texts, open, queue, replies, accept, n - 1), open, queue[n - 1], replies[n - 1], accept(n - 1))
  }

  function GiveOne<S>(texts: map<S, seq<Text>>, open: set<S>, who: S, reply: Text, ok: bool): map<S, seq<Text>> {
    if ok && who in open && who in texts then texts[who := texts[who] + [reply]] else texts
  }

  /** The replies among the first `n` at the places where `who` stands, if the write succeeds. */
  function PickTaken<S(==)>(queue: seq<S>, replies: seq<Text>, accept: nat -> bool, who: S, n: nat): seq<Text>
    requires n <= |replies| && n <= |queue|
  {
    if n == 0 then []
    else PickTaken(queue, replies, accept, who, n - 1)
         + if queue[n - 1] == who && accept(n - 1) then [replies[n - 1]] else []
  }

  /** A session gets exactly the replies at its own places in the queue, in order. */
  lemma {:induction false} GivenToOwners<S>(texts: map<S, seq<Text>>, open: set<S>, queue: seq<S>,
                                            replies: seq<Text>, accept: nat -> bool, n: nat)
    requires n <= |replies| && n <= |queue|
    ensures var after := GiveAll(texts, open, queue, replies, accept, n);
            && after.Keys == texts.Keys
            && forall s :: s in texts ==>
                 after[s] == texts[s] + if s in open then PickTaken(queue, replies, accept, s, n) else []
  {
    if n > 0 {
      GivenToOwners(texts, open, queue, replies, accept, n - 1);
    }
  }

  /** When no write fails these are all the replies at its places. */
  lemma {:induction false} AllTaken<S>(queue: seq<S>, replies: seq<Text>, accept: nat -> bool, who: S, n: nat)
    requires n <= |replies| && n <= |queue| && forall k :: 0 <= k < n ==> accept(k)
    ensures PickTaken(queue, replies, accept, who, n) == PickFor(queue[..n], replies[..n], who)
  {
    if n > 0 {
      AllTaken(queue, replies, accept, who, n - 1);
      PickForOne(queue[..n - 1], replies[..n - 1], queue[n - 1], replies[n - 1], who);
      assert queue[..n] == queue[..n - 1] + [queue[n - 1]] && replies[..n] == replies[..n - 1] + [replies[n - 1]];
    }
  }
}
