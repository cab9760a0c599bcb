/** Buffers from which nothing is ever handed over again. Both `onRead` methods ignore the
    verdict of the framer (src/tcp_session.cpp:66, include/redis_tcp_client.hpp:37), so a
    connection with such a buffer keeps growing it. */
module Stalling {
  import opened Bytes
  import opened Numbers
  import opened Framing
  import opened Grammar
  import opened Fragmentation

  // ---- Header texts that can still become a length ----

  /** A length or count that the framer accepts. */
  predicate GoodNumber(t: Text) {
    Stoi(t).Some? && Stoi(t).value >= -1
  }

  /** It is one already, or no digit and no junk has come yet. */
  predicate Promising(t: Text) {
    GoodNumber(t) || SkipSpaces(t) in {[], [PLUS], [MINUS]}
  }

  lemma {:induction false} SkipSpacesAppend(t: Text, y: Text)
    ensures SkipSpaces(t + y) == if SkipSpaces(t) == [] then SkipSpaces(y) else SkipSpaces(t) + y
  {
    if t == [] {
      assert t + y == y;
    } else {
      assert (t + y)[1..] == t[1..] + y;
      SkipSpacesAppend(t[1..], y);
    }
  }

  lemma {:induction false} DigitRunAppend(t: Text, y: Text)
    ensures DigitRun(t + y) == if DigitRun(t) == t then t + DigitRun(y) else DigitRun(t)
  {
    if t == [] {
      assert t + y == y;
    } else {
      assert (t + y)[1..] == t[1..] + y;
      DigitRunAppend(t[1..], y);
      if IsDigit(t[0]) {
        assert t == [t[0]] + t[1..];
        assert DigitRun(t)[1..] == DigitRun(t[1..]);
      }
    }
  }

  lemma {:induction false} ValueGrows(d: Text, e: Text)
    requires AllDigits(d) && AllDigits(e)
    ensures Value(d + e) >= Value(d)
    decreases |e|
  {
    if e == [] {
      assert d + e == d;
    } else {
      var last := |e| - 1;
      assert (d + e)[..|d + e| - 1] == d + e[..last];
      ValueGrows(d, e[..last]);
    }
  }

  function Digits(u: Text): Text {
    if u != [] && (u[0] == MINUS || u[0] == PLUS) then u[1..] else u
  }

  predicate GoodDigits(negative: bool, d: Text)
    requires AllDigits(d)
  {
    d != [] && InInt32(Signed(negative, Value(d))) && Signed(negative, Value(d)) >= -1
  }

  lemma MoreDigits(negative: bool, v: Text, y: Text)
    requires v != [] && GoodDigits(negative, DigitRun(v + y))
    ensures GoodDigits(negative, DigitRun(v))
  {
    hide Value;
    DigitRunAppend(v, y);
    if DigitRun(v) == v {
      ValueGrows(v, DigitRun(y));
    }
  }

  lemma GoodNumberExactly(t: Text)
    ensures var u := SkipSpaces(t);
            GoodNumber(t) <==> GoodDigits(u != [] && u[0] == MINUS, DigitRun(Digits(u)))
  {
    hide SkipSpaces, DigitRun, Value;
  }

  lemma GoodStaysOrStarts(t: Text, y: Text)
    requires GoodNumber(t + y)
    ensures Promising(t)
  {
    hide GoodNumber, GoodDigits, DigitRun;
    var u := SkipSpaces(t);
    SkipSpacesAppend(t, y);
    GoodNumberExactly(t);
    GoodNumberExactly(t + y);
    hide SkipSpaces;
    if u != [] && u != [PLUS] && u != [MINUS] {
      var v := Digits(u);
      assert v != [] && Digits(u + y) == v + y;
      MoreDigits(u[0] == MINUS, v, y);
    }
  }

  const ZERO: Text := [48]

  lemma ZeroCompletes(t: Text)
    requires SkipSpaces(t) in {[], [PLUS], [MINUS]}
    ensures Stoi(t + ZERO) == Some(0)
  {
    SkipSpacesAppend(t, ZERO);
    assert ZERO[1..] == [] && DigitRun(ZERO) == ZERO;
    assert ZERO[..0] == [] && Value(ZERO) == 0;
    var u := SkipSpaces(t + ZERO);
    assert Digits(u) == ZERO;
  }

  /** More text without a carriage return can make a length of it exactly when it is promising. */
  lemma PromisingExactly(t: Text)
    ensures (exists y :: NoCr(y) && GoodNumber(t + y)) <==> Promising(t)
  {
    hide Stoi, SkipSpaces;
    forall y | GoodNumber(t + y) ensures Promising(t) {
      GoodStaysOrStarts(t, y);
    }
    if GoodNumber(t) {
      assert t + [] == t && NoCr([]);
      assert GoodNumber(t + []);
    } else if Promising(t) {
      ZeroCompletes(t);
      assert NoCr(ZERO) && GoodNumber(t + ZERO);
    }
  }

  // ---- Items that can never be finished ----

  /** The first carriage return is there, and something else than a line feed behind it. */
  predicate LoneCr(t: Text) {
    CrIndex(t) + 1 < |t| && t[CrIndex(t) + 1] != LF
  }

  /** A header without the end of its line, and no more text can make it a good one. */
  predicate HeaderSpoilt(u: Text)
    requires u != [] && u[0] != CR
  {
    if CrIndex(u) == |u| then !Promising(u[1..]) else !GoodNumber(u[1..CrIndex(u)])
  }

  /** An item that is wrong, whose line can never end, or whose header can only be wrong. */
  predicate ItemStalled(u: Text)
    requires u != []
  {
    Next(u).Stuck?
    && (Next(u).verdict == Error
        || match LineEnd(u)
           case None => LoneCr(u) || (!IsLineType(u[0]) && HeaderSpoilt(u))
           case Some(p) => LoneCr(u[p + 2..]))
  }

  lemma LoneCrStays(t: Text, x: Text)
    requires LoneCr(t)
    ensures LineEnd(t + x) == None
  {
    var p := CrIndex(t);
    assert (t + x)[..p] == t[..p];
    CrIndexUnique(t + x, p);
  }

  lemma NoCrAt(t: Text, n: nat)
    requires n <= |t| && NoCr(t[..n])
    ensures forall k :: 0 <= k < n ==> t[k] != CR
  {
    forall k | 0 <= k < n ensures t[k] != CR {
      assert t[k] in t[..n];
    }
  }

  lemma CrPartOf(s: Text, n: nat, p: nat)
    requires n <= |s| && p <= |s| && NoCr(s[..n]) && NoCr(s[..p]) && (p < |s| ==> s[p] == CR)
    ensures p >= n && NoCr(s[n..p])
  {
    NoCrAt(s, n);
    assert s[n..p] == s[..p][n..];
  }

  lemma CrOrNone(t: Text)
    requires LineEnd(t) == None && !LoneCr(t)
    ensures (CrIndex(t) == |t| && NoCr(t)) || CrIndex(t) == |t| - 1
  {
    hide CrIndex;
    assert t[..|t|] == t;
  }

  /** The end of the first line of `u + x`, when `u` has no lone carriage return. */
  lemma LineEndsLater(u: Text, x: Text, p: nat)
    requires LineEnd(u) == None && !LoneCr(u) && LineEnd(u + x) == Some(p)
    ensures CrIndex(u) == |u| ==> |u| <= p && NoCr((u + x)[|u|..p])
    ensures CrIndex(u) < |u| ==> p == CrIndex(u) == |u| - 1
  {
    hide CrIndex;
    var s, q := u + x, CrIndex(u);
    CrOrNone(u);
    if q == |u| {
      hide LineEnd;
      assert s[..q] == u;
      CrPartOf(s, q, p);
    } else {
      assert s[..q] == u[..q];
      CrIndexUnique(s, q);
    }
  }

  lemma StalledStays(u: Text, x: Text)
    requires u != [] && ItemStalled(u)
    ensures Next(u + x).Stuck?
  {
    NextStable(u, x);
    if Next(u).verdict == Incompleted {
      match LineEnd(u) {
        case Some(p) => PayloadStays(u, x, p);
        case None =>
          if LoneCr(u) {
            LoneCrStays(u, x);
          } else if LineEnd(u + x).Some? {
            HeaderStays(u, x, LineEnd(u + x).value);
          }
      }
    }
  }

  lemma PayloadStays(u: Text, x: Text, p: nat)
    requires u != [] && Next(u) == Stuck(Incompleted) && LineEnd(u) == Some(p) && LoneCr(u[p + 2..])
    ensures Next(u + x).Stuck?
  {
    LineEndStable(u, x);
    assert (u + x)[..p] == u[..p];
    assert u[0] == DOLLAR && p > 0;
    assert (u + x)[1..p] == u[1..p];
    assert (u + x)[p + 2..] == u[p + 2..] + x;
    LoneCrStays(u[p + 2..], x);
  }

  lemma HeaderStays(u: Text, x: Text, p: nat)
    requires u != [] && (u[0] == DOLLAR || u[0] == STAR)
    requires LineEnd(u) == None && !LoneCr(u) && HeaderSpoilt(u) && LineEnd(u + x) == Some(p)
    ensures Next(u + x).Stuck?
  {
    var s := u + x;
    LineEndsLater(u, x, p);
    assert s[0] == u[0] && p > 0;
    if CrIndex(u) == |u| {
      var y := s[|u|..p];
      assert s[1..p] == u[1..] + y;
      PromisingExactly(u[1..]);
    } else {
      assert s[1..p] == u[1..p];
    }
    hide Stoi;
  }

  /** The end of a line that has its text, or its text and a carriage return. */
  lemma EndBehindText(t: Text, z: Text)
    requires NoCr(t) && |z| >= 2 && z[0] == CR && z[1] == LF
    ensures LineEnd(t + z) == Some(|t|)
  {
    assert (t + z)[..|t|] == t;
    CrIndexUnique(t + z, |t|);
  }

  lemma EndBehindCr(t: Text, z: Text)
    requires CrIndex(t) == |t| - 1 && z != [] && z[0] == LF
    ensures LineEnd(t + z) == Some(|t| - 1)
  {
    var q := |t| - 1;
    assert (t + z)[..q] == t[..q];
    CrIndexUnique(t + z, q);
  }

  lemma HeaderIsItem(s: Text, p: nat)
    requires s != [] && LineEnd(s) == Some(p) && p > 0 && (s[0] == DOLLAR || s[0] == STAR)
    requires GoodNumber(s[1..p]) && LineEnd(s[p + 2..]).Some?
    ensures Next(s).Token?
  {
    hide Stoi, LineEnd;
  }

  lemma EmptyLine()
    ensures LineEnd(CRLF) == Some(0)
  {
  }

  lemma HeaderWithLines(t: Text)
    requires t != [] && NoCr(t) && (t[0] == DOLLAR || t[0] == STAR) && GoodNumber(t[1..])
    ensures Next(t + (CRLF + CRLF)).Token?
  {
    hide GoodNumber;
    var z := CRLF + CRLF;
    EndBehindText(t, z);
    EmptyLine();
    hide LineEnd;
    var s := t + z;
    assert s[1..|t|] == t[1..];
    assert s[|t| + 2..] == CRLF;
    HeaderIsItem(s, |t|);
  }

  /** A header is finished by its line and an empty payload line. */
  lemma FinishText(u: Text, y: Text) returns (x: Text)
    requires u != [] && NoCr(u) && NoCr(y) && (u[0] == DOLLAR || u[0] == STAR) && GoodNumber(u[1..] + y)
    ensures Next(u + x).Token?
  {
    hide GoodNumber, Next;
    x := y + (CRLF + CRLF);
    var t := u + y;
    assert t[1..] == u[1..] + y;
    HeaderWithLines(t);
    PlusAssociates(u, y, CRLF + CRLF);
  }

  lemma FinishCr(u: Text) returns (x: Text)
    requires u != [] && CrIndex(u) == |u| - 1 && (u[0] == DOLLAR || u[0] == STAR) && GoodNumber(u[1..|u| - 1])
    ensures Next(u + x).Token?
  {
    hide GoodNumber;
    x := [LF] + CRLF;
    var p := |u| - 1;
    EndBehindCr(u, x);
    EmptyLine();
    hide LineEnd;
    var s := u + x;
    assert u[p] == CR;
    hide CrIndex;
    assert s[1..p] == u[1..p];
    assert s[p + 2..] == CRLF;
    HeaderIsItem(s, p);
  }

  lemma FinishPayload(u: Text, p: nat) returns (x: Text)
    requires u != [] && Next(u) == Stuck(Incompleted) && LineEnd(u) == Some(p) && !LoneCr(u[p + 2..])
    ensures Next(u + x).Token?
  {
    var t := u[p + 2..];
    assert u[0] == DOLLAR && p > 0 && LineEnd(t) == None;
    assert GoodNumber(u[1..p]);
    hide Next, GoodNumber;
    x := FinishLine(t);
    var s := u + x;
    LineEndStable(u, x);
    assert p + 2 <= |u| && |s| == |u| + |x|;
    hide LineEnd;
    assert s[0] == u[0];
    assert s[1..p] == u[1..p];
    assert s[p + 2..] == t + x;
    HeaderIsItem(s, p);
  }

  lemma FinishLine(t: Text) returns (x: Text)
    requires LineEnd(t) == None && !LoneCr(t)
    ensures LineEnd(t + x).Some?
  {
    hide LineEnd, CrIndex;
    CrOrNone(t);
    if CrIndex(t) == |t| {
      x := CRLF;
      EndBehindText(t, x);
    } else {
      x := [LF];
      EndBehindCr(t, x);
    }
  }

  /** What to append to finish an item. */
  lemma Finish(u: Text) returns (x: Text)
    requires u != [] && !ItemStalled(u)
    ensures Next(u + x).Token?
  {
    if Next(u).Token? {
      assert u + [] == u;
      return [];
    }
    assert Next(u).verdict == Incompleted;
    match LineEnd(u) {
      case Some(p) => x := FinishPayload(u, p);
      case None =>
        if IsLineType(u[0]) {
          x := FinishLine(u);
          LineIsItem(u + x);
        } else {
          x := FinishHeader(u);
        }
    }
  }

  lemma LineIsItem(s: Text)
    requires s != [] && IsLineType(s[0]) && LineEnd(s).Some?
    ensures Next(s).Token?
  {
  }

  lemma FinishHeader(u: Text) returns (x: Text)
    requires u != [] && (u[0] == DOLLAR || u[0] == STAR)
    requires LineEnd(u) == None && !LoneCr(u) && !HeaderSpoilt(u)
    ensures Next(u + x).Token?
  {
    hide CrIndex, Promising, GoodNumber, LineEnd;
    CrOrNone(u);
    if CrIndex(u) == |u| {
      PromisingExactly(u[1..]);
      var y :| NoCr(y) && GoodNumber(u[1..] + y);
      x := FinishText(u, y);
    } else {
      x := FinishCr(u);
    }
  }

  /** An item can still be finished by more bytes exactly when it is not stalled. */
  lemma ItemStalledExactly(u: Text)
    requires u != []
    ensures (exists x :: Next(u + x).Token?) <==> !ItemStalled(u)
  {
    if ItemStalled(u) {
      forall x ensures Next(u + x).Stuck? {
        StalledStays(u, x);
      }
    } else {
      var x := Finish(u);
    }
  }

  // ---- Buffers that never move again ----

  /** The scan of the buffer ends at a stalled item. */
  predicate Stalled(b: Text) {
    Left(b) != [] && ItemStalled(Left(b))
  }

  /** The bytes that finish an item, and none behind it. */
  lemma FinishExactly(u: Text, x: Text) returns (y: Text)
    requires u != [] && Next(u).Stuck? && Next(u + x).Token?
    ensures Complete(u + y)
  {
    var s := u + x;
    var n := Next(s).length;
    NextExactly(s, Next(s).length);
    if n <= |u| {
      assert s[..n] == u[..n];
      NextExactly(u, n);
    }
    y := s[|u|..n];
    assert u + y == s[..n];
    hide Next, IsToken;
    OneToken(u + y);
  }

  /** A read of a buffer that nothing has been read from hands something over exactly when it
      finishes the item in which the scan ended, and an array in front all the way. */
  lemma MovesOnlyBehindLeft(b: Text, x: Text)
    requires b != [] && Consumed(b) == 0 && Read(b + x).segments != []
    ensures Left(b) != [] && Next(Left(b) + x).Token?
  {
    CompleteEnd(b);
    ReadRound(b + x);
    ScanAppend(b, x);
    if Next(b).Token? {
      NextStable(b, x);
      RespRound(b);
      ItemIsLong(b);
      assert Next(b).opens;
      assert Complete(b + x);
    } else {
      assert Left(b) == b;
    }
  }

  /** More bytes can make a buffer move exactly when its scan does not end at a stalled item. */
  lemma MovesExactly(b: Text)
    requires b != [] && Consumed(b) == 0
    ensures (exists x :: Read(b + x).segments != []) <==> !Stalled(b)
  {
    hide Read, Next, ItemStalled, FlatVerdict, FlatEnd;
    if x :| Read(b + x).segments != [] {
      MovesOnlyBehindLeft(b, x);
      ItemStalledExactly(Left(b));
    }
    if !Stalled(b) {
      NotAllRead(b);
      LeftIsStuck(b);
      ItemStalledExactly(Left(b));
      var x :| Next(Left(b) + x).Token?;
      var y := FinishExactly(Left(b), x);
      ScanAppend(b, y);
      CompleteIsReported(b + y);
    }
  }

  lemma NotAllRead(b: Text)
    requires b != [] && Consumed(b) == 0
    ensures Left(b) != []
  {
    CompleteEnd(b);
    hide FlatVerdict, FlatEnd;
  }

  lemma StalledRead(b: Text, x: Text)
    requires Stalled(b) && Consumed(b) == 0
    ensures Read(b + x) == Feed([], b + x)
  {
    assert b != [];
    hide Stalled, Next, Read, Consumed;
    MovesExactly(b);
    assert Read(b + x).segments == [];
    SegmentsAreDrained(b + x);
    assert Concat(Read(b + x).segments) + Read(b + x).rest == Read(b + x).rest;
  }

  lemma {:induction false} StalledFrom(b: Text, p: Text, chunks: seq<Text>)
    requires Stalled(b) && Consumed(b) == 0
    ensures FeedAll(b + p, chunks) == Feed([], b + p + Concat(chunks))
    decreases |chunks|
  {
    hide Read, Stalled, Consumed;
    if chunks == [] {
      assert b + p + Concat(chunks) == b + p;
    } else {
      var c := chunks[0];
      PlusAssociates(b, p, c);
      StalledRead(b, p + c);
      StalledFrom(b, p + c, chunks[1..]);
      PlusAssociates(b + p, c, Concat(chunks[1..]));
    }
  }

  /** The buffer then grows by all that arrives and is never reported from again. */
  lemma StalledForever(b: Text, chunks: seq<Text>)
    requires Stalled(b) && Consumed(b) == 0
    ensures FeedAll(b, chunks) == Feed([], b + Concat(chunks))
  {
    hide Stalled, Consumed;
    assert b + [] == b;
    StalledFrom(b, [], chunks);
  }

  // ---- Connections ----

  /** A second read of what a read has left consumes nothing. */
  lemma {:induction false} RestIsUnread(b: Text)
    ensures Consumed(Read(b).rest) == 0
  {
    hide Read, Next, Consumed;
    if b == [] {
      EmptyRead();
      EmptyConsumed();
    } else {
      ReadRound(b);
      ItemIsLong(b);
      if ItemReturn(b).verdict == Completed {
        RestIsUnread(b[ItemReturn(b).consumed..]);
      } else {
        UnreadConsumed(b);
      }
    }
  }

  lemma EmptyConsumed()
    ensures Consumed([]) == 0
  {
  }

  lemma UnreadConsumed(b: Text)
    requires |Read(b).rest| == |b|
    ensures Consumed(b) == 0
  {
    hide Resp, Segments;
  }

  lemma {:induction false} RunIsUnread(pending: Text, chunks: seq<Text>)
    requires Consumed(pending) == 0
    ensures Consumed(FeedAll(pending, chunks).rest) == 0
    decreases |chunks|
  {
    hide Read, Consumed;
    if chunks != [] {
      var b := pending + chunks[0];
      RestIsUnread(b);
      RunIsUnread(Read(b).rest, chunks[1..]);
    }
  }

  /** Whatever has arrived in whatever pieces: a connection can hand over anything more, now or
      later, exactly when its buffer is empty or not stalled. */
  lemma LiveExactly(chunks: seq<Text>)
    ensures var rest := FeedAll([], chunks).rest;
            (exists more :: FeedAll(rest, more).segments != []) <==> rest == [] || !Stalled(rest)
  {
    hide Stalled, Consumed, Read;
    var rest := FeedAll([], chunks).rest;
    EmptyConsumed();
    RunIsUnread([], chunks);
    if rest != [] && Stalled(rest) {
      forall more ensures FeedAll(rest, more).segments == [] {
        StalledForever(rest, more);
      }
    } else {
      var x := SomethingMoves(rest);
      OneChunk(rest, x);
    }
  }

  lemma SomethingMoves(b: Text) returns (x: Text)
    requires Consumed(b) == 0 && (b == [] || !Stalled(b))
    ensures Read(b + x).segments != []
  {
    hide Stalled, Read, Consumed;
    if b == [] {
      x := [PLUS] + CRLF;
      assert b + x == x;
      assert CrIndex(x) == 1 by { CrIndexUnique(x, 1); }
      assert Next(x) == Token(3, false);
      ReadRound(x);
    } else {
      MovesExactly(b);
      x :| Read(b + x).segments != [];
    }
  }

  lemma OneChunk(b: Text, x: Text)
    ensures FeedAll(b, [x]).segments == Read(b + x).segments
  {
    hide Read;
    assert [x][1..] == [];
    assert FeedAll(Read(b + x).rest, []).segments == [];
  }
}
