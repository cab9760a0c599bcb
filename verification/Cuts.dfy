/** Which ways of cutting a stream into reads give the same texts as one read. */
module Cuts {
  import opened Bytes
  import opened Framing
  import Grammar
  import opened Fragmentation

  /** No chunk with bytes behind it ends a row of tokens in which an array was opened. */
  predicate SafeCuts(acc: Text, chunks: seq<Text>)
    decreases |chunks|
  {
    chunks == []
    || (var b := acc + chunks[0];
        (Harmless(b) || Concat(chunks[1..]) == []) && SafeCuts(b, chunks[1..]))
  }

  lemma {:induction false} NothingMore(acc: Text, chunks: seq<Text>)
    requires Concat(chunks) == []
    ensures SafeCuts(acc, chunks) && FeedAll([], chunks) == Feed([], [])
    decreases |chunks|
  {
    hide Read, Harmless;
    EmptyRead();
    if chunks != [] {
      assert |chunks[0]| + |Concat(chunks[1..])| == 0;
      assert acc + chunks[0] == acc && [] + chunks[0] == [];
      NothingMore(acc, chunks[1..]);
    }
  }

  /** Behind an opened array more bytes join its text, or hold it back. */
  lemma {:induction false} OpenedAppend(b: Text, x: Text)
    requires Complete(b) && HasOpen(b)
    ensures |Read(b + x).segments| == |Read(b).segments| - if Complete(x) then 0 else 1
  {
    hide Read, Next, FlatEnd;
    var n := Next(b).length;
    Grammar.NextStable(b, x);
    Grammar.CompleteAppend(b, x);
    ReadRound(b);
    ReadRound(b + x);
    EmptyRead();
    hide ItemReturn;
    if Next(b).opens {
      assert b[|b|..] == [] && (b + x)[|b + x|..] == [];
    } else {
      OpenedAppend(b[n..], x);
      assert (b + x)[n..] == b[n..] + x;
    }
  }

  /** A row of tokens, however it is cut, is reported as something. */
  lemma SomethingReported(chunks: seq<Text>)
    requires Complete(Concat(chunks)) && Concat(chunks) != []
    ensures FeedAll([], chunks).segments != []
  {
    hide FlatVerdict, FeedAll;
    EmptiedExactly(chunks);
    NothingLost([], chunks);
    assert |FeedAll([], chunks).rest| == 0;
    assert |[] + Concat(chunks)| > 0;
  }

  lemma CutTooEarly(b: Text, later: seq<Text>)
    requires Complete(b) && HasOpen(b) && Concat(later) != []
    ensures |Read(b).segments| + |FeedAll([], later).segments| > |Read(b + Concat(later)).segments|
  {
    hide FlatVerdict, HasOpen, Read, FeedAll;
    OpenedAppend(b, Concat(later));
    if Complete(Concat(later)) {
      SomethingReported(later);
    }
  }

  lemma {:induction false} AgreeFrom(acc: Text, chunks: seq<Text>)
    requires Harmless(acc)
    ensures var f, all := FeedAll(Read(acc).rest, chunks), Read(acc + Concat(chunks));
            Feed(Read(acc).segments + f.segments, f.rest) == all <==> SafeCuts(acc, chunks)
    decreases |chunks|
  {
    hide Read, FlatVerdict, HasOpen;
    if chunks == [] {
      assert acc + Concat(chunks) == acc;
      assert Read(acc).segments + [] == Read(acc).segments;
    } else {
      var b, later := acc + chunks[0], chunks[1..];
      PlusAssociates(acc, chunks[0], Concat(later));
      HarmlessCut(acc, chunks[0]);
      var r := Read(Read(acc).rest + chunks[0]);
      PlusAssociates(Read(acc).segments, r.segments, FeedAll(r.rest, later).segments);
      if Harmless(b) {
        AgreeFrom(b, later);
      } else {
        CompleteRead(b);
        if Concat(later) == [] {
          NothingMore(b, later);
          assert b + [] == b;
          assert Read(b).segments + [] == Read(b).segments;
        } else {
          CutTooEarly(b, later);
        }
      }
    }
  }

  /** A stream in pieces is reported as if it had come in one read exactly when no piece with
      bytes behind it ends a row of tokens in which an array was opened. */
  lemma CutsAgreeExactly(chunks: seq<Text>)
    ensures FeedAll([], chunks) == Read(Concat(chunks)) <==> SafeCuts([], chunks)
  {
    hide Read, FeedAll, SafeCuts;
    EmptyRead();
    NothingOpened();
    AgreeFrom([], chunks);
    assert [] + Concat(chunks) == Concat(chunks);
    assert [] + FeedAll([], chunks).segments == FeedAll([], chunks).segments;
  }

  lemma NothingOpened()
    ensures Harmless([])
  {
  }

  /** One cut with bytes behind it changes nothing exactly when it is harmless. */
  lemma HarmlessExactly(b: Text, x: Text)
    requires x != []
    ensures FeedAll([], [b, x]) == Read(b + x) <==> Harmless(b)
  {
    hide Read, FeedAll, Harmless;
    CutsAgreeExactly([b, x]);
    assert [b, x][1..] == [x] && [x][1..] == [];
    assert [] + b == b;
    ConcatOne(x);
    assert SafeCuts(b + x, []);
  }

  // ---- Streams that can be cut anywhere ----

  /** Where the first header that opens an array ends. */
  function FirstOpenEnd(s: Text): (e: nat)
    requires HasOpen(s)
    ensures 0 < e <= |s|
  {
    match Next(s)
    case Token(n, opens) => if opens then n else n + FirstOpenEnd(s[n..])
  }

  lemma {:induction false} FirstOpenEndAppend(s: Text, x: Text)
    requires HasOpen(s)
    ensures HasOpen(s + x) && FirstOpenEnd(s + x) == FirstOpenEnd(s)
  {
    hide Next;
    var n := Next(s).length;
    Grammar.NextStable(s, x);
    if !Next(s).opens {
      FirstOpenEndAppend(s[n..], x);
      assert (s + x)[n..] == s[n..] + x;
    }
  }

  lemma {:induction false} FirstOpenEndCut(s: Text)
    requires HasOpen(s)
    ensures var b := s[..FirstOpenEnd(s)];
            Complete(b) && HasOpen(b)
  {
    hide Next, Grammar.IsToken;
    var n, e := Next(s).length, FirstOpenEnd(s);
    var h := s[..n];
    Grammar.NextExactly(s, Next(s).length);
    Grammar.OneToken(h);
    if !Next(s).opens {
      FirstOpenEndCut(s[n..]);
      hide FirstOpenEnd, FlatVerdict, HasOpen;
      Grammar.CompleteAppend(h, s[n..][..e - n]);
      assert s[..e] == h + s[n..][..e - n];
    }
  }

  lemma {:induction false} AnyCutsSafe(acc: Text, chunks: seq<Text>)
    requires var s := acc + Concat(chunks);
             HasOpen(s) ==> FirstOpenEnd(s) == |s|
    ensures SafeCuts(acc, chunks)
    decreases |chunks|
  {
    hide FlatVerdict, HasOpen, FirstOpenEnd;
    if chunks != [] {
      var b, x := acc + chunks[0], Concat(chunks[1..]);
      PlusAssociates(acc, chunks[0], x);
      AnyCutsSafe(b, chunks[1..]);
      if HasOpen(b) {
        FirstOpenEndAppend(b, x);
        assert |b + x| <= |b|;
      }
    }
  }

  /** All ways of cutting a stream give what one read of it gives exactly when it opens no array,
      or the first header that does ends the stream. */
  lemma AllCutsAgreeExactly(s: Text)
    ensures (forall chunks :: Concat(chunks) == s ==> FeedAll([], chunks) == Read(s))
            <==> (HasOpen(s) ==> FirstOpenEnd(s) == |s|)
  {
    hide FeedAll, Read, FirstOpenEnd, HasOpen, FlatVerdict;
    if HasOpen(s) ==> FirstOpenEnd(s) == |s| {
      forall chunks | Concat(chunks) == s ensures FeedAll([], chunks) == Read(s) {
        assert [] + Concat(chunks) == s;
        AnyCutsSafe([], chunks);
        CutsAgreeExactly(chunks);
      }
    } else {
      var e := FirstOpenEnd(s);
      var b, x := s[..e], s[e..];
      FirstOpenEndCut(s);
      HarmlessExactly(b, x);
      ConcatOne(x);
      ConcatCons(b, [x]);
      assert [b] + [x] == [b, x];
      assert Concat([b, x]) == s;
    }
  }
}
