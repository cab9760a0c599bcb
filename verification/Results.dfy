/** What `process_resp` returns and reports for every text, in the words of the grammar. */
module Results {
  import opened Bytes
  import opened Framing
  import opened Grammar

  /** The text begins with a token. */
  predicate BeginsToken(u: Text) {
    exists n | 0 <= n <= |u| :: IsToken(u[..n])
  }

  /** No line ends in the text. */
  predicate HasNoLine(u: Text) {
    forall n :: 0 <= n <= |u| ==> !IsLine(u[..n])
  }

  /** A good length header for a payload is there, and no line ends behind it. */
  predicate AwaitsPayload(u: Text, k: nat)
    requires 3 <= k <= |u|
  {
    IsLine(u[..k]) && HeaderNumber(u[..k]).Some? && HeaderNumber(u[..k]).value >= 0 && HasNoLine(u[k..])
  }

  /** An item of a known type that has come in part: its line has not ended, or the payload line
      behind its good header has not. */
  predicate IsUnfinished(u: Text) {
    u != [] && u[0] in {PLUS, MINUS, COLON, DOLLAR, STAR}
    && (HasNoLine(u) || (u[0] == DOLLAR && exists k | 3 <= k <= |u| :: AwaitsPayload(u, k)))
  }

  lemma NoLineExactly(u: Text)
    ensures HasNoLine(u) <==> LineEnd(u) == None
  {
    if LineEnd(u).Some? {
      LineEndExactly(u, LineEnd(u).value);
    }
    forall n | 0 <= n <= |u| && IsLine(u[..n]) ensures LineEnd(u).Some? {
      LineEndExactly(u, n - 2);
    }
  }

  lemma AwaitsExactly(u: Text)
    requires u != [] && u[0] == DOLLAR && LineEnd(u).Some?
    ensures (exists k | 3 <= k <= |u| :: AwaitsPayload(u, k)) <==> Next(u) == Stuck(Incompleted)
  {
    var p := LineEnd(u).value;
    LineEndExactly(u, p);
    assert p > 0;
    assert u[..p + 2][1..p] == u[1..p];
    NoLineExactly(u[p + 2..]);
    forall k | 3 <= k <= |u| && IsLine(u[..k]) ensures k == p + 2 {
      LineEndExactly(u, k - 2);
    }
    hide LineEnd, HasNoLine;
    if Next(u) == Stuck(Incompleted) {
      assert AwaitsPayload(u, p + 2);
    }
  }

  /** The item in which a scan stops: unfinished or wrong, as the grammar says. */
  lemma StuckExactly(u: Text)
    requires u != [] && !BeginsToken(u)
    ensures Next(u) == Stuck(if IsUnfinished(u) then Incompleted else Error)
  {
    if Next(u).Token? {
      NextExactly(u, Next(u).length);
    }
    NoLineExactly(u);
    if u[0] == DOLLAR && LineEnd(u).Some? {
      AwaitsExactly(u);
    }
    hide LineEnd, HasNoLine, AwaitsPayload, NextBulk;
  }

  /** The first token that opens an array. */
  function FirstOpened(ts: seq<Text>): (h: nat)
    requires AllTokens(ts)
    ensures h <= |ts| && (h < |ts| ==> IsOpen(ts[h])) && forall k :: 0 <= k < h ==> !IsOpen(ts[k])
  {
    if ts == [] || IsOpen(ts[0]) then 0 else 1 + FirstOpened(ts[1..])
  }

  lemma TokenFirst(t: Text, x: Text)
    requires IsToken(t)
    ensures t + x != [] && Next(t + x) == Token(|t|, IsOpen(t)) && (t + x)[..|t|] == t && (t + x)[|t|..] == x
  {
    assert (t + x)[..|t|] == t;
    NextExactly(t + x, |t|);
  }

  lemma Shift(ts: seq<Text>, h: nat)
    requires 0 < h <= |ts|
    ensures ts == [ts[0]] + ts[1..] && ts[..h] == [ts[0]] + ts[1..][..h - 1] && ts[h..] == ts[1..][h - 1..]
    ensures Concat(ts[..h]) == ts[0] + Concat(ts[1..][..h - 1])
  {
    ConcatCons(ts[0], ts[1..][..h - 1]);
  }

  /** One token in front. */
  lemma FirstToken(ts: seq<Text>, u: Text)
    requires AllTokens(ts) && ts != []
    ensures var s := Concat(ts) + u;
            s != [] && Next(s) == Token(|ts[0]|, IsOpen(ts[0]))
            && s[..|ts[0]|] == ts[0] && s[|ts[0]|..] == Concat(ts[1..]) + u
  {
    PlusAssociates(ts[0], Concat(ts[1..]), u);
    TokenFirst(ts[0], Concat(ts[1..]) + u);
  }

  lemma ScanFirst(s: Text)
    requires s != [] && Next(s).Token?
    ensures var n, t := Next(s).length, s[Next(s).length..];
            && FlatVerdict(s) == FlatVerdict(t) && FlatEnd(s) == n + FlatEnd(t)
            && (HasOpen(s) <==> Next(s).opens || HasOpen(t))
            && FirstOpen(s) == if Next(s).opens then 0 else n + FirstOpen(t)
  {
  }

  lemma ScanLast(u: Text)
    requires u == [] || !BeginsToken(u)
    ensures FlatVerdict(u) == if u == [] then Completed else if IsUnfinished(u) then Incompleted else Error
    ensures FlatEnd(u) == 0 && !HasOpen(u) && FirstOpen(u) == 0
  {
    if u != [] {
      StuckExactly(u);
    }
    hide Next, IsUnfinished;
  }

  lemma {:induction false} ScanExactly(ts: seq<Text>, u: Text)
    requires AllTokens(ts) && (u == [] || !BeginsToken(u))
    ensures var s, h := Concat(ts) + u, FirstOpened(ts);
            && FlatVerdict(s) == (if u == [] then Completed else if IsUnfinished(u) then Incompleted else Error)
            && FlatEnd(s) == |Concat(ts)| && (HasOpen(s) <==> h < |ts|)
            && FirstOpen(s) == |Concat(ts[..h])|
  {
    hide FlatVerdict, FlatEnd, HasOpen, FirstOpen, Next, IsUnfinished, BeginsToken, IsOpen, IsToken;
    var s, h := Concat(ts) + u, FirstOpened(ts);
    if ts == [] {
      assert s == u;
      ScanLast(u);
    } else {
      FirstToken(ts, u);
      ScanFirst(s);
      ScanExactly(ts[1..], u);
      if h == 0 {
        assert ts[..0] == [];
      } else {
        Shift(ts, h);
      }
    }
  }

  lemma {:induction false} SegmentsExactly(ts: seq<Text>, u: Text)
    requires AllTokens(ts) && (u == [] || !BeginsToken(u))
    ensures var h := FirstOpened(ts);
            Segments(Concat(ts) + u) == ts[..h] + if h < |ts| && u == [] then [Concat(ts[h..])] else []
  {
    var s, h := Concat(ts) + u, FirstOpened(ts);
    ScanExactly(ts, u);
    hide FlatVerdict, FlatEnd, HasOpen, FirstOpen, IsUnfinished;
    if ts == [] {
      assert s == u;
      if u != [] {
        StuckExactly(u);
      }
    } else {
      FirstToken(ts, u);
      hide Next, BeginsToken, IsOpen;
      if h == 0 {
        assert ts[..0] == [] && ts[0..] == ts;
        assert u == [] ==> s == Concat(ts);
      } else {
        SegmentsExactly(ts[1..], u);
        Shift(ts, h);
        hide Segments;
        var last := if h < |ts| && u == [] then [Concat(ts[h..])] else [];
        PlusAssociates([ts[0]], ts[1..][..h - 1], last);
        assert Segments(s) == [ts[0]] + Segments(Concat(ts[1..]) + u) by { SegmentsFirst(s); }
      }
    }
  }

  lemma SegmentsFirst(s: Text)
    requires s != [] && Next(s).Token? && !Next(s).opens
    ensures Segments(s) == [s[..Next(s).length]] + Segments(s[Next(s).length..])
  {
  }

  /** The result and the callback texts for a row of tokens and what is behind it: completed to the
      end if nothing is; otherwise `Error` at the first token that opens an array, if there is one,
      however the rest goes on, and if there is none `Incompleted` or `Error` behind the row, as
      the item there is unfinished or wrong. Tokens are reported one by one up to the first that
      opens an array, and all from there on as one text, but only if nothing is behind them. */
  lemma ResultExactly(ts: seq<Text>, u: Text)
    requires AllTokens(ts) && (u == [] || !BeginsToken(u))
    ensures var s, h := Concat(ts) + u, FirstOpened(ts);
            && Resp(s) == (if u == [] then ParseReturn(|s|, Completed)
                           else if h < |ts| then ParseReturn(|Concat(ts[..h])|, Error)
                           else ParseReturn(|Concat(ts)|, if IsUnfinished(u) then Incompleted else Error))
            && Segments(s) == ts[..h] + if h < |ts| && u == [] then [Concat(ts[h..])] else []
  {
    hide FlatVerdict, FlatEnd, HasOpen, FirstOpen, Segments, IsUnfinished, BeginsToken, FirstOpened;
    ScanExactly(ts, u);
    SegmentsExactly(ts, u);
  }

  /** Every text is such a row and rest. */
  lemma EveryText(s: Text)
    ensures AllTokens(Tokens(s)) && s == Concat(Tokens(s)) + Left(s) && (Left(s) == [] || !BeginsToken(Left(s)))
  {
    TokensAreTokens(s);
    hide Tokens, FlatEnd, IsToken;
    if Left(s) != [] {
      LeftBeginsNone(s);
    }
  }

  lemma LeftBeginsNone(s: Text)
    requires Left(s) != []
    ensures !BeginsToken(Left(s))
  {
    LeftIsStuck(s);
    hide FlatEnd, FlatVerdict, IsToken;
    forall n | 0 <= n <= |Left(s)| ensures !IsToken(Left(s)[..n]) {
      NextExactly(Left(s), n);
    }
  }

  /** And in one way only. */
  lemma OneWay(ts: seq<Text>, u: Text)
    requires AllTokens(ts) && (u == [] || !BeginsToken(u))
    ensures Tokens(Concat(ts) + u) == ts && Left(Concat(ts) + u) == u
  {
    hide BeginsToken;
    var s := Concat(ts) + u;
    ScanExactly(ts, u);
    TokensAreTokens(s);
    assert s[..|Concat(ts)|] == Concat(ts);
    hide Tokens, FlatEnd, IsToken;
    UniqueTokens(Concat(ts));
    assert Concat(Tokens(s)) == Concat(ts);
    assert ts == Tokens(Concat(ts)) && Tokens(s) == Tokens(Concat(ts));
  }

  /** An array that has come in part, cut inside one of its items behind the whole header, is an
      `Error` that consumes nothing, and not `Incompleted`. */
  lemma ArrayCutShort(ts: seq<Text>, j: nat, u: Text)
    requires AllTokens(ts) && 1 <= j < |ts| && IsOpen(ts[0])
    requires u != [] && u < ts[j]
    ensures Concat(ts[..j]) + u < Concat(ts)
    ensures Resp(Concat(ts[..j]) + u) == ParseReturn(0, Error) && Segments(Concat(ts[..j]) + u) == []
  {
    var head := ts[..j];
    forall n | 0 <= n <= |u| ensures !IsToken(u[..n]) {
      if IsToken(u[..n]) {
        TokensPrefixFree(u[..n], ts[j]);
      }
    }
    hide IsToken, IsOpen;
    assert ts == head + ts[j..] && ts[j..][0] == ts[j];
    ConcatAppend(head, ts[j..]);
    assert Concat(ts[j..])[..|u|] == u;
    assert (Concat(head) + u) == Concat(ts)[..|Concat(head) + u|];
    assert |Concat(ts[j..])| >= |ts[j]| > |u|;
    assert head[0] == ts[0] && FirstOpened(head) == 0;
    assert head[..0] == [];
    ResultExactly(head, u);
  }
}
