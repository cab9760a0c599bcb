/** When a stream of RESP messages is reported message by message. */
module Messages {
  import opened Bytes
  import opened Framing
  import opened Grammar
  import opened Fragmentation

  /** An array with elements: a positive-count header and a row of tokens behind it. */
  predicate IsOpened(v: Text) {
    v != [] && Next(v).Token? && Next(v).opens && Complete(v)
  }

  /** One request or reply: a scalar, or an array with elements. */
  predicate IsMessage(v: Text) {
    IsScalar(v) || IsOpened(v)
  }

  predicate AllMessages(vs: seq<Text>) {
    forall k :: 0 <= k < |vs| ==> IsMessage(vs[k])
  }

  predicate AllScalars(vs: seq<Text>) {
    forall k :: 0 <= k < |vs| ==> IsScalar(vs[k])
  }

  /** In the words of the grammar. */
  lemma OpenedExactly(v: Text)
    ensures IsOpened(v) <==> exists ts :: AllTokens(ts) && ts != [] && IsOpen(ts[0]) && v == Concat(ts)
  {
    if IsOpened(v) {
      CompleteEnd(v);
      TokensAreTokens(v);
      NextExactly(v, Next(v).length);
      hide Next, FlatVerdict, FlatEnd, IsToken, IsOpen;
      var ts := Tokens(v);
      assert v[..|v|] == v;
      assert ts[0] == v[..Next(v).length];
      assert AllTokens(ts) && IsOpen(ts[0]) && v == Concat(ts);
    }
    forall ts | AllTokens(ts) && ts != [] && IsOpen(ts[0]) && v == Concat(ts) ensures IsOpened(v) {
      TokensOfConcat(ts);
      assert v[..|ts[0]|] == ts[0];
      NextExactly(v, |ts[0]|);
      hide Next, FlatVerdict, IsToken, IsOpen;
    }
  }

  lemma ScalarNext(v: Text, x: Text)
    requires IsScalar(v)
    ensures v != [] && Next(v + x) == Token(|v|, false) && (v + x)[..|v|] == v && (v + x)[|v|..] == x
  {
    assert (v + x)[..|v|] == v;
    NextExactly(v + x, |v|);
  }

  lemma MessageComplete(v: Text)
    requires IsMessage(v)
    ensures v != [] && Complete(v)
  {
    hide Next, FlatVerdict, IsToken;
    if IsScalar(v) {
      OneToken(v);
      ScalarNext(v, []);
    }
  }

  /** One read of a scalar and whatever follows it. */
  lemma ScalarFirst(v: Text, x: Text)
    requires IsScalar(v)
    ensures Read(v + x) == Feed([v] + Read(x).segments, Read(x).rest)
  {
    ScalarNext(v, x);
    hide Next, Read, IsScalar;
    ReadRound(v + x);
  }

  /** One read of an array and whatever follows it: one text for all of it, if all of it is
      a row of tokens, and otherwise nothing. */
  lemma OpenedFirst(v: Text, x: Text)
    requires IsOpened(v)
    ensures Read(v + x) == if Complete(x) then Feed([v + x], []) else Feed([], v + x)
  {
    hide Next, Read, FlatVerdict, FlatEnd;
    NextStable(v, x);
    CompleteAppend(v, x);
    var s := v + x;
    ReadRound(s);
    EmptyRead();
    assert s[..|s|] == s && s[|s|..] == [];
    assert [s] + Read([]).segments == [s];
  }

  lemma {:induction false} MessagesComplete(vs: seq<Text>)
    requires AllMessages(vs)
    ensures Complete(Concat(vs)) && (Concat(vs) == [] <==> vs == [])
  {
    hide FlatVerdict, FlatEnd, Next, IsMessage, Read;
    if vs == [] {
      EmptyRead();
    } else {
      var v, x := vs[0], Concat(vs[1..]);
      MessageComplete(v);
      MessagesComplete(vs[1..]);
      CompleteAppend(v, x);
      assert |v + x| > 0;
    }
  }

  /** Messages that come in one read are reported one by one exactly when none but the last
      is an array with elements. */
  lemma {:induction false} OneReadExactly(vs: seq<Text>)
    requires AllMessages(vs)
    ensures Read(Concat(vs)).segments == vs <==> forall k :: 0 <= k < |vs| - 1 ==> IsScalar(vs[k])
  {
    hide Read, FlatVerdict, IsScalar, IsOpened;
    if vs == [] {
      EmptyRead();
    } else {
      var v, ws := vs[0], vs[1..];
      assert vs == [v] + ws;
      MessagesComplete(ws);
      if IsScalar(v) {
        ScalarFirst(v, Concat(ws));
        OneReadExactly(ws);
        assert forall k :: 0 <= k < |ws| - 1 ==> ws[k] == vs[k + 1];
        assert forall k :: 0 < k < |vs| - 1 ==> vs[k] == ws[k - 1];
      } else {
        OpenedFirst(v, Concat(ws));
        if ws == [] {
          assert v + Concat(ws) == v;
        } else {
          assert !IsScalar(vs[0]);
          assert |Read(Concat(vs)).segments| == 1;
        }
      }
    }
  }

  /** Each epoch holds whole messages, and none but its last is an array with elements. */
  ghost predicate Grouped(epochs: seq<Text>, vs: seq<Text>) {
    if epochs == [] then vs == []
    else exists j | 0 <= j <= |vs| :: GroupAt(epochs[0], vs, j) && Grouped(epochs[1..], vs[j..])
  }

  predicate GroupAt(epoch: Text, vs: seq<Text>, j: nat)
    requires j <= |vs|
  {
    epoch == Concat(vs[..j]) && forall k :: 0 <= k < j - 1 ==> IsScalar(vs[k])
  }

  lemma GroupReported(epoch: Text, vs: seq<Text>, j: nat)
    requires AllMessages(vs) && j <= |vs| && Complete(epoch)
    ensures GroupAt(epoch, vs, j) <==> Read(epoch).segments == vs[..j]
  {
    hide Read, FlatVerdict, IsScalar, IsMessage;
    SegmentsAreDrained(epoch);
    CompleteRead(epoch);
    assert Concat(Read(epoch).segments) + [] == Concat(Read(epoch).segments);
    assert forall k :: 0 <= k < j ==> vs[..j][k] == vs[k];
    OneReadExactly(vs[..j]);
  }

  predicate AllComplete(epochs: seq<Text>) {
    forall k :: 0 <= k < |epochs| ==> Complete(epochs[k])
  }

  lemma {:induction false} GroupedExactly(epochs: seq<Text>, vs: seq<Text>)
    requires AllComplete(epochs) && AllMessages(vs)
    ensures AllSegments(epochs) == vs <==> Grouped(epochs, vs)
  {
    hide Read, FlatVerdict, GroupAt, IsMessage;
    if epochs != [] {
      var e := epochs[0];
      var j := |Read(e).segments|;
      if AllSegments(epochs) == vs {
        GroupReported(e, vs, j);
        GroupedExactly(epochs[1..], vs[j..]);
      }
      if Grouped(epochs, vs) {
        var i :| 0 <= i <= |vs| && GroupAt(e, vs, i) && Grouped(epochs[1..], vs[i..]);
        GroupReported(e, vs, i);
        GroupedExactly(epochs[1..], vs[i..]);
        assert vs == vs[..i] + vs[i..];
      }
    }
  }

  lemma {:induction false} EpochsAllComplete(acc: Text, chunks: seq<Text>)
    requires Complete(acc + Concat(chunks))
    ensures AllComplete(Epochs(acc, chunks))
    decreases |chunks|
  {
    hide FlatVerdict;
    if chunks == [] {
      assert acc + Concat(chunks) == acc;
    } else {
      var b, x := acc + chunks[0], Concat(chunks[1..]);
      PlusAssociates(acc, chunks[0], x);
      if Complete(b) {
        CompleteAppend(b, x);
        assert [] + x == x;
        EpochsAllComplete([], chunks[1..]);
      } else {
        EpochsAllComplete(b, chunks[1..]);
      }
    }
  }

  /** Any messages, any fragmentation: the stream is reported message by message exactly when
      every stretch between two cuts on token boundaries holds whole messages of which none
      but the last is an array with elements. */
  lemma MessagesExactly(vs: seq<Text>, chunks: seq<Text>)
    requires AllMessages(vs) && Concat(chunks) == Concat(vs)
    ensures FeedAll([], chunks).segments == vs <==> Grouped(Epochs([], chunks), vs)
  {
    hide Read, FlatVerdict, IsMessage;
    MessagesComplete(vs);
    assert [] + Concat(chunks) == Concat(chunks);
    EpochsAllComplete([], chunks);
    FragmentationLaw(chunks);
    GroupedExactly(Epochs([], chunks), vs);
  }

  /** Scalars are reported one by one however they are cut. */
  lemma {:induction false} ScalarsReported(vs: seq<Text>, chunks: seq<Text>)
    requires AllScalars(vs) && Concat(chunks) == Concat(vs)
    ensures FeedAll([], chunks) == Feed(vs, [])
  {
    ScalarTokens(vs);
    hide FlatVerdict, Next, FlatEnd, Tokens, HasOpen;
    CompleteEnd(Concat(vs));
    assert [] + Concat(chunks) == Concat(chunks);
    assert FlatEnd([]) == 0;
    ScalarsChunkIndependent([], chunks);
  }

  lemma ScalarTokens(vs: seq<Text>)
    requires AllScalars(vs)
    ensures Tokens(Concat(vs)) == vs && Complete(Concat(vs)) && !HasOpen(Concat(vs))
  {
    hide IsToken, Next, Tokens, FlatVerdict, HasOpen;
    TokensOfConcat(vs);
  }

  lemma OpenedRest(v: Text)
    requires IsOpened(v)
    ensures Complete(v[Next(v).length..])
  {
    hide Next;
  }

  lemma HeaderAlone(v: Text)
    requires IsOpened(v)
    ensures var h := v[..Next(v).length];
            IsOpened(h) && Read(h) == Feed([h], [])
  {
    hide Next, Read, IsToken;
    var n := Next(v).length;
    var h := v[..n];
    NextExactly(v, n);
    assert h[..n] == h;
    NextExactly(h, n);
    EmptyRead();
    assert h[n..] == [];
    assert h + [] == h;
    OpenedFirst(h, []);
  }

  /** Every array with elements can be cut so that it is reported as several texts: behind its
      header. */
  lemma HeaderCutSplits(v: Text)
    requires IsOpened(v) && Next(v).length < |v|
    ensures var n := Next(v).length;
            var f := FeedAll([], [v[..n], v[n..]]);
            |f.segments| > 1 && f.segments[0] == v[..n]
  {
    var n := Next(v).length;
    var h, t := v[..n], v[n..];
    HeaderAlone(v);
    OpenedRest(v);
    hide Next, Read, FlatVerdict, FlatEnd, IsToken, IsOpen;
    CompleteIsReported(t);
    assert [] + h == h && [] + t == t;
    assert [h, t][1..] == [t];
    assert FeedAll([], [t]).segments == Read(t).segments + [];
    assert FeedAll([], [h, t]).segments == [h] + FeedAll([], [t]).segments;
  }

  // ---- One message under fragmentation ----

  /** No cut but one at either end of the message falls on a token boundary. */
  predicate NoInnerCut(acc: Text, chunks: seq<Text>, v: Text) {
    forall i :: 0 <= i <= |chunks| ==> OuterOrHarmless(acc + Concat(chunks[..i]), v)
  }

  predicate OuterOrHarmless(p: Text, v: Text) {
    Complete(p) ==> p == [] || p == v
  }

  lemma NoInnerCutFirst(acc: Text, chunks: seq<Text>, v: Text)
    requires chunks != []
    ensures NoInnerCut(acc, chunks, v)
            <==> OuterOrHarmless(acc, v) && NoInnerCut(acc + chunks[0], chunks[1..], v)
  {
    hide OuterOrHarmless;
    var b := acc + chunks[0];
    forall i | 0 <= i < |chunks| ensures acc + Concat(chunks[..i + 1]) == b + Concat(chunks[1..][..i]) {
      assert chunks[..i + 1][1..] == chunks[1..][..i] && chunks[..i + 1][0] == chunks[0];
      PlusAssociates(acc, chunks[0], Concat(chunks[1..][..i]));
    }
    assert acc + Concat(chunks[..0]) == acc;
    if NoInnerCut(acc, chunks, v) {
      assert OuterOrHarmless(acc + Concat(chunks[..0]), v);
      forall i | 0 <= i <= |chunks[1..]| ensures OuterOrHarmless(b + Concat(chunks[1..][..i]), v) {
        assert OuterOrHarmless(acc + Concat(chunks[..i + 1]), v);
      }
    }
    if OuterOrHarmless(acc, v) && NoInnerCut(b, chunks[1..], v) {
      forall i | 0 <= i <= |chunks| ensures OuterOrHarmless(acc + Concat(chunks[..i]), v) {
        if i > 0 {
          assert OuterOrHarmless(b + Concat(chunks[1..][..i - 1]), v);
          assert acc + Concat(chunks[..i - 1 + 1]) == b + Concat(chunks[1..][..i - 1]);
        }
      }
    }
  }

  lemma {:induction false} EmptyChunks(chunks: seq<Text>)
    requires Concat(chunks) == []
    ensures AllSegments(Epochs([], chunks)) == []
    decreases |chunks|
  {
    hide Read, FlatVerdict;
    EmptyRead();
    if chunks != [] {
      EmptyChunks(chunks[1..]);
      assert [] + chunks[0] == [];
    }
  }

  /** An inner cut makes the first text shorter than the message. */
  lemma EarlyReport(b: Text, later: seq<Text>, v: Text)
    requires Complete(b) && b != [] && |b| < |v|
    ensures Read(b).segments + later != [v]
  {
    hide Read, FlatVerdict;
    CompleteIsReported(b);
    SegmentsAreDrained(b);
    var segments := Read(b).segments;
    assert |segments[0]| <= |Concat(segments)|;
    assert (segments + later)[0] == segments[0];
  }

  lemma {:induction false} OneMessageFrom(acc: Text, chunks: seq<Text>, v: Text)
    requires v != [] && Complete(v) && Read(v).segments == [v]
    requires acc + Concat(chunks) == v && (acc == [] || !Complete(acc))
    ensures AllSegments(Epochs(acc, chunks)) == [v] <==> NoInnerCut(acc, chunks, v)
    decreases |chunks|
  {
    hide Read, FlatVerdict, NoInnerCut;
    assert chunks == [] ==> acc + Concat(chunks) == acc;
    if chunks != [] {
      var b, x := acc + chunks[0], Concat(chunks[1..]);
      PlusAssociates(acc, chunks[0], x);
      assert b + x == v;
      NoInnerCutFirst(acc, chunks, v);
      if !Complete(b) {
        OneMessageFrom(b, chunks[1..], v);
      } else if b == [] {
        EmptyRead();
        assert [] + x == x;
        OneMessageFrom([], chunks[1..], v);
        assert AllSegments(Epochs(acc, chunks)) == [] + AllSegments(Epochs([], chunks[1..]));
      } else if |x| == 0 {
        EmptyChunks(chunks[1..]);
        assert b == v;
        assert AllSegments(Epochs(acc, chunks)) == [v] + [];
        NothingBehind(v, chunks[1..]);
      } else {
        EarlyReport(b, AllSegments(Epochs([], chunks[1..])), v);
        InnerCutHere(b, chunks[1..], v);
      }
    }
  }

  lemma NothingBehind(v: Text, chunks: seq<Text>)
    requires Concat(chunks) == []
    ensures NoInnerCut(v, chunks, v)
  {
    hide FlatVerdict;
    forall i | 0 <= i <= |chunks| ensures v + Concat(chunks[..i]) == v {
      ConcatAppend(chunks[..i], chunks[i..]);
      assert chunks == chunks[..i] + chunks[i..];
    }
  }

  lemma InnerCutHere(b: Text, chunks: seq<Text>, v: Text)
    requires Complete(b) && b != [] && b != v
    ensures !NoInnerCut(b, chunks, v)
  {
    hide FlatVerdict;
    assert b + Concat(chunks[..0]) == b;
    assert !OuterOrHarmless(b + Concat(chunks[..0]), v);
  }

  /** A request or reply that arrives alone, in any pieces, is handed over in one piece exactly
      when no piece but the last ends on a boundary of its tokens. */
  lemma OneMessageExactly(v: Text, chunks: seq<Text>)
    requires IsMessage(v) && Concat(chunks) == v
    ensures FeedAll([], chunks).segments == [v]
            <==> forall i :: 0 <= i <= |chunks| ==> OuterOrHarmless(Concat(chunks[..i]), v)
  {
    hide Read, FlatVerdict, IsMessage, OuterOrHarmless;
    MessageComplete(v);
    OneReadExactly([v]);
    ConcatOne(v);
    FragmentationLaw(chunks);
    assert [] + Concat(chunks) == v;
    OneMessageFrom([], chunks, v);
    assert forall i :: 0 <= i <= |chunks| ==> [] + Concat(chunks[..i]) == Concat(chunks[..i]);
  }
}
