/** The framer under fragmentation: `onRead` on both sides parses what the input buffer holds,
    drains what was consumed and ignores the verdict (src/tcp_session.cpp:30-66,
    include/redis_tcp_client.hpp:19-36). */
module Fragmentation {
  import opened Bytes
  import opened Framing
  import opened Grammar

  /** The texts reported, and what stays in the buffer. */
  datatype Feed = Feed(segments: seq<Text>, rest: Text)

  function Consumed(b: Text): (c: nat)
    ensures c <= |b|
  {
    Resp(b).consumed
  }

  /** One `onRead`. */
  function Read(b: Text): Feed {
    Feed(Segments(b), b[Consumed(b)..])
  }

  /** A connection that gets its bytes in these chunks, with one `onRead` after each. */
  function FeedAll(pending: Text, chunks: seq<Text>): Feed
    decreases |chunks|
  {
    if chunks == [] then Feed([], pending)
    else
      var r := Read(pending + chunks[0]);
      var later := FeedAll(r.rest, chunks[1..]);
      Feed(r.segments + later.segments, later.rest)
  }

  /** One item of a read. */
  lemma ReadRound(b: Text)
    requires b != []
    ensures var r := ItemReturn(b);
            Read(b) == if r.verdict == Completed
                       then Feed([b[..r.consumed]] + Read(b[r.consumed..]).segments, Read(b[r.consumed..]).rest)
                       else Feed([], b)
  {
    RespRound(b);
    hide Next, Segments;
  }

  lemma EmptyRead()
    ensures Complete([]) && Read([]) == Feed([], [])
  {
  }

  /** A complete buffer is drained whole. */
  lemma CompleteRead(b: Text)
    requires Complete(b)
    ensures Read(b).rest == []
  {
  }

  /** Per call, the callback texts are non-empty, adjacent, and are exactly the bytes drained. */
  lemma {:induction false} SegmentsAreDrained(b: Text)
    ensures Concat(Read(b).segments) + Read(b).rest == b
    ensures forall k :: 0 <= k < |Read(b).segments| ==> |Read(b).segments[k]| >= 3
  {
    hide Read, ItemReturn;
    if b == [] {
      EmptyRead();
    } else {
      ReadRound(b);
      ItemIsLong(b);
      var r := ItemReturn(b);
      if r.verdict == Completed {
        var head, tail := b[..r.consumed], b[r.consumed..];
        SegmentsAreDrained(tail);
        ConcatCons(head, Read(tail).segments);
        assert head + Concat(Read(tail).segments) + Read(tail).rest == head + tail;
      }
    }
  }

  lemma ItemIsLong(b: Text)
    requires b != []
    ensures ItemReturn(b).verdict == Completed ==> ItemReturn(b).consumed >= 3
  {
    hide Next;
  }

  lemma CompleteIsReported(t: Text)
    requires Complete(t) && t != []
    ensures Read(t).segments != []
  {
    hide Read, FlatVerdict;
    CompleteRead(t);
    SegmentsAreDrained(t);
  }

  /** Over any run, the reported texts and the bytes still in the buffer are the bytes received. */
  lemma {:induction false} NothingLost(pending: Text, chunks: seq<Text>)
    ensures var f := FeedAll(pending, chunks);
            Concat(f.segments) + f.rest == pending + Concat(chunks)
    decreases |chunks|
  {
    hide Read;
    if chunks == [] {
      assert pending + Concat(chunks) == pending;
    } else {
      var b := pending + chunks[0];
      var r := Read(b);
      SegmentsAreDrained(b);
      NothingLost(r.rest, chunks[1..]);
      var later := FeedAll(r.rest, chunks[1..]);
      ConcatAppend(r.segments, later.segments);
      calc {
        pending + Concat(chunks);
        b + Concat(chunks[1..]);
        Concat(r.segments) + (r.rest + Concat(chunks[1..]));
        Concat(r.segments) + (Concat(later.segments) + later.rest);
        Concat(r.segments + later.segments) + later.rest;
      }
    }
  }

  /** One more chunk at the end. */
  lemma {:induction false} FeedAppend(pending: Text, chunks: seq<Text>, c: Text)
    ensures var f := FeedAll(pending, chunks);
            var r := Read(f.rest + c);
            FeedAll(pending, chunks + [c]) == Feed(f.segments + r.segments, r.rest)
    decreases |chunks|
  {
    hide Read;
    if chunks == [] {
      assert chunks + [c] == [c] && [c][1..] == [];
      var r := Read(pending + c);
      assert FeedAll(r.rest, []) == Feed([], r.rest);
      assert r.segments + [] == r.segments && [] + r.segments == r.segments;
    } else {
      var r := Read(pending + chunks[0]);
      assert (chunks + [c])[1..] == chunks[1..] + [c] && (chunks + [c])[0] == chunks[0];
      FeedAppend(r.rest, chunks[1..], c);
      var later := FeedAll(r.rest, chunks[1..]);
      PlusAssociates(r.segments, later.segments, Read(later.rest + c).segments);
    }
  }

  // ---- Where a cut matters ----

  /** A cut behind `b` changes nothing when `b` is not complete or no array was opened in it. */
  predicate Harmless(b: Text) {
    !Complete(b) || !HasOpen(b)
  }

  /** Reading `b` and later the rest with `x` is then the same as reading all of it at once. */
  lemma {:induction false} HarmlessCut(b: Text, x: Text)
    requires Harmless(b)
    ensures Read(b + x) == Feed(Read(b).segments + Read(Read(b).rest + x).segments, Read(Read(b).rest + x).rest)
  {
    hide Read, Next;
    if b == [] {
      EmptyRead();
      assert b + x == x;
    } else {
      ReadRound(b);
      var r := ItemReturn(b);
      if r.verdict == Completed {
        var c := b[r.consumed..];
        NextStable(b, x);
        ReadRound(b + x);
        assert (b + x)[r.consumed..] == c + x && (b + x)[..r.consumed] == b[..r.consumed];
        HarmlessCut(c, x);
      }
    }
  }

  /** The stream as the cuts that fall on a token boundary divide it. */
  function Epochs(acc: Text, chunks: seq<Text>): (es: seq<Text>)
    ensures es != []
    decreases |chunks|
  {
    if chunks == [] then [acc]
    else
      var b := acc + chunks[0];
      if Complete(b) then [b] + Epochs([], chunks[1..]) else Epochs(b, chunks[1..])
  }

  function AllSegments(epochs: seq<Text>): seq<Text> {
    if epochs == [] then [] else Read(epochs[0]).segments + AllSegments(epochs[1..])
  }

  lemma {:induction false} EpochsFrom(acc: Text, chunks: seq<Text>)
    requires acc == [] || !Complete(acc)
    ensures var f, es := FeedAll(Read(acc).rest, chunks), Epochs(acc, chunks);
            && Read(acc).segments + f.segments == AllSegments(es)
            && f.rest == Read(es[|es| - 1]).rest
    decreases |chunks|
  {
    hide Read, FlatVerdict;
    if chunks != [] {
      var b := acc + chunks[0];
      EmptyRead();
      HarmlessCut(acc, chunks[0]);
      var r := Read(Read(acc).rest + chunks[0]);
      PlusAssociates(Read(acc).segments, r.segments, FeedAll(r.rest, chunks[1..]).segments);
      if Complete(b) {
        CompleteRead(b);
        EpochsFrom([], chunks[1..]);
        assert FeedAll([], chunks[1..]).segments == AllSegments(Epochs([], chunks[1..]));
      } else {
        EpochsFrom(b, chunks[1..]);
      }
    }
  }

  lemma {:induction false} EpochsConcat(acc: Text, chunks: seq<Text>)
    ensures Concat(Epochs(acc, chunks)) == acc + Concat(chunks)
    decreases |chunks|
  {
    hide FlatVerdict;
    if chunks == [] {
      ConcatOne(acc);
    } else {
      var b := acc + chunks[0];
      EpochsConcat(if Complete(b) then [] else b, chunks[1..]);
      if Complete(b) {
        ConcatCons(b, Epochs([], chunks[1..]));
      }
      assert acc + Concat(chunks) == b + Concat(chunks[1..]);
    }
  }

  /** What a fragmented stream is reported as, exactly: only the cuts on token boundaries
      count, and between two of them the stream is reported as if it had come in one read. */
  lemma FragmentationLaw(chunks: seq<Text>)
    ensures var f, es := FeedAll([], chunks), Epochs([], chunks);
            && f.segments == AllSegments(es)
            && f.rest == Read(es[|es| - 1]).rest
            && Concat(es) == Concat(chunks)
  {
    hide Read;
    EmptyRead();
    EpochsFrom([], chunks);
    EpochsConcat([], chunks);
    assert [] + FeedAll([], chunks).segments == FeedAll([], chunks).segments;
    assert [] + Concat(chunks) == Concat(chunks);
  }

  // ---- What is drained ----

  /** `s` is a row of tokens `u`, and `rest` behind it. */
  ghost predicate LeftBehind(s: Text, u: Text, rest: Text) {
    s == u + rest && Complete(u)
  }

  lemma LeftBehindJoin(u: Text, t: Text, v: Text, rest: Text)
    requires Complete(u) && LeftBehind(t, v, rest)
    ensures LeftBehind(u + t, u + v, rest)
  {
    hide FlatVerdict;
    CompleteAppend(u, v);
    PlusAssociates(u, v, rest);
  }

  lemma {:induction false} ReadDrains(b: Text) returns (u: Text)
    ensures LeftBehind(b, u, Read(b).rest)
  {
    hide Read, Next, FlatVerdict;
    if Complete(b) {
      CompleteRead(b);
      return b;
    }
    EmptyRead();
    ReadRound(b);
    var r := ItemReturn(b);
    if r.verdict == Completed {
      var t := b[r.consumed..];
      var v := ReadDrains(t);
      TokenComplete(b, r.consumed);
      LeftBehindJoin(b[..r.consumed], t, v, Read(t).rest);
      assert b == b[..r.consumed] + t;
      return b[..r.consumed] + v;
    } else {
      assert [] + b == b;
      return [];
    }
  }

  lemma TokenComplete(b: Text, n: nat)
    requires n <= |b| && b != [] && ItemReturn(b) == ParseReturn(n, Completed)
    ensures Complete(b[..n])
  {
    if Next(b).opens {
      assert b[..n] == b;
    } else {
      NextExactly(b, Next(b).length);
      hide Next, IsToken, FlatVerdict;
      OneToken(b[..n]);
    }
  }

  lemma {:induction false} FeedDrains(pending: Text, chunks: seq<Text>) returns (u: Text)
    ensures LeftBehind(pending + Concat(chunks), u, FeedAll(pending, chunks).rest)
    decreases |chunks|
  {
    hide Read, FlatVerdict;
    if chunks == [] {
      EmptyRead();
      assert pending + Concat(chunks) == [] + pending;
      return [];
    }
    var b := pending + chunks[0];
    var v := ReadDrains(b);
    var w := FeedDrains(Read(b).rest, chunks[1..]);
    PlusAssociates(pending, chunks[0], Concat(chunks[1..]));
    PlusAssociates(v, Read(b).rest, Concat(chunks[1..]));
    LeftBehindJoin(v, Read(b).rest + Concat(chunks[1..]), w, FeedAll(pending, chunks).rest);
    u := v + w;
  }

  /** The drained bytes always are whole tokens of the stream, whatever the fragmentation. */
  lemma DrainedOnBoundary(pending: Text, chunks: seq<Text>)
    ensures exists u :: LeftBehind(pending + Concat(chunks), u, FeedAll(pending, chunks).rest)
  {
    var u := FeedDrains(pending, chunks);
  }

  lemma {:induction false} EpochsComplete(acc: Text, chunks: seq<Text>)
    ensures var es := Epochs(acc, chunks);
            Complete(acc + Concat(chunks)) <==> Complete(es[|es| - 1])
    decreases |chunks|
  {
    hide FlatVerdict;
    if chunks == [] {
      assert acc + Concat(chunks) == acc;
    } else {
      var b := acc + chunks[0];
      assert acc + Concat(chunks) == b + Concat(chunks[1..]);
      if Complete(b) {
        EpochsComplete([], chunks[1..]);
        CompleteAppend(b, Concat(chunks[1..]));
        assert [] + Concat(chunks[1..]) == Concat(chunks[1..]);
      } else {
        EpochsComplete(b, chunks[1..]);
      }
    }
  }

  /** The buffer is empty after the last read exactly when the stream is a row of tokens. */
  lemma EmptiedExactly(chunks: seq<Text>)
    ensures FeedAll([], chunks).rest == [] <==> Complete(Concat(chunks))
  {
    hide Read, FlatVerdict;
    var es := Epochs([], chunks);
    FragmentationLaw(chunks);
    EpochsComplete([], chunks);
    var u := FeedDrains([], chunks);
    assert [] + Concat(chunks) == Concat(chunks);
    assert u + [] == u;
    if Complete(es[|es| - 1]) {
      CompleteRead(es[|es| - 1]);
    }
  }

  // ---- Streams of scalars, and streams with arrays ----

  /** A text without opened arrays is reported token by token. */
  lemma {:induction false} ScalarRead(b: Text)
    requires !HasOpen(b)
    ensures Read(b) == Feed(Tokens(b), Left(b))
  {
    hide Read, Next;
    if b == [] {
      EmptyRead();
    } else {
      ReadRound(b);
      if Next(b).Token? {
        var t := b[Next(b).length..];
        ScalarRead(t);
        assert Left(b) == Left(t);
      }
    }
  }

  /** Chunk independence: while no positive-count array header has come, every fragmentation
      reports the token list of the stream and leaves the same unfinished item. */
  lemma {:induction false} ScalarsChunkIndependent(pending: Text, chunks: seq<Text>)
    requires !HasOpen(pending + Concat(chunks)) && FlatEnd(pending) == 0
    ensures var s := pending + Concat(chunks);
            FeedAll(pending, chunks) == Feed(Tokens(s), Left(s))
    decreases |chunks|
  {
    hide Read, Next, FlatEnd, Tokens, HasOpen;
    var s := pending + Concat(chunks);
    if chunks == [] {
      assert s == pending;
      NoTokenYet(pending);
    } else {
      var b, x := pending + chunks[0], Concat(chunks[1..]);
      assert s == b + x;
      ScanAppend(b, x);
      ScalarRead(b);
      LeftHasNoToken(b);
      ScalarsChunkIndependent(Left(b), chunks[1..]);
      LeftAppend(b, x);
    }
  }

  lemma NoTokenYet(b: Text)
    requires FlatEnd(b) == 0
    ensures Tokens(b) == [] && Left(b) == b
  {
    hide Next;
  }

  lemma {:induction false} LeftHasNoToken(b: Text)
    ensures FlatEnd(Left(b)) == 0
  {
    hide Next;
    if b != [] && Next(b).Token? {
      var t := b[Next(b).length..];
      LeftHasNoToken(t);
      assert Left(b) == Left(t);
    } else {
      assert Left(b) == b;
    }
  }

  lemma LeftAppend(b: Text, x: Text)
    ensures Left(b + x) == Left(Left(b) + x)
  {
    hide Next, FlatEnd;
    ScanAppend(b, x);
    var e := FlatEnd(b);
    assert b + x == b[..e] + (Left(b) + x);
  }
}
