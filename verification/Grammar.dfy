/** The tokens of the flat scan as a grammar, and what it means that they are read from the front. */
module Grammar {
  import opened Bytes
  import Numbers
  import opened Framing

  /** Text without a carriage return, and then CR LF. */
  predicate IsLine(t: Text) {
    |t| >= 2 && NoCr(t[..|t| - 2]) && t[|t| - 2] == CR && t[|t| - 1] == LF
  }

  /** The number in a header line, behind its type byte. */
  function HeaderNumber(t: Text): Option<int>
    requires |t| >= 3
  {
    Numbers.Stoi(t[1..|t| - 2])
  }

  /** A bulk item whose header line is the first `k` bytes. */
  predicate IsBulkSplit(t: Text, k: nat)
    requires 3 <= k <= |t|
  {
    && IsLine(t[..k])
    && match HeaderNumber(t[..k])
       case None => false
       case Some(n) => if n == -1 then k == |t| else n >= 0 && IsLine(t[k..])
  }

  predicate IsBulk(t: Text) {
    exists k | 3 <= k <= |t| :: IsBulkSplit(t, k)
  }

  predicate IsHeader(t: Text) {
    |t| >= 3 && IsLine(t) && HeaderNumber(t).Some? && HeaderNumber(t).value >= -1
  }

  /** A line of a simple type, a bulk item, or an array header with a count of -1 or more. */
  predicate IsToken(t: Text) {
    |t| >= 3
    && if t[0] == DOLLAR then IsBulk(t)
       else if t[0] == STAR then IsHeader(t)
       else IsLineType(t[0]) && IsLine(t)
  }

  /** An array header that announces elements. */
  predicate IsOpen(t: Text) {
    IsToken(t) && t[0] == STAR && HeaderNumber(t).value > 0
  }

  /** Any other token. */
  predicate IsScalar(t: Text) {
    IsToken(t) && !IsOpen(t)
  }

  lemma LineEndExactly(s: Text, p: nat)
    ensures LineEnd(s) == Some(p) <==> p + 2 <= |s| && IsLine(s[..p + 2])
  {
    if p + 2 <= |s| {
      assert s[..p + 2][..p] == s[..p];
      if IsLine(s[..p + 2]) {
        CrIndexUnique(s, p);
      }
    }
  }

  lemma BulkIsToken(s: Text)
    requires s != [] && s[0] == DOLLAR && Next(s).Token?
    ensures IsToken(s[..Next(s).length])
  {
    var n, p := Next(s).length, LineEnd(s).value;
    var k := p + 2;
    LineEndExactly(s, p);
    assert s[..n][..k] == s[..k] && s[..k][..p] == s[..p];
    if n != k {
      LineEndExactly(s[k..], n - k - 2);
      assert s[k..][..n - k] == s[..n][k..];
    }
    assert IsBulkSplit(s[..n], k);
  }

  lemma TokenIsBulk(s: Text, n: nat, k: nat)
    requires s != [] && s[0] == DOLLAR && 3 <= k <= n <= |s| && IsBulkSplit(s[..n], k)
    ensures Next(s) == Token(n, false)
  {
    var t := s[..n];
    assert t[..k] == s[..k];
    LineEndExactly(s, k - 2);
    assert s[..k][..k - 2] == s[..k - 2];
    if HeaderNumber(t[..k]) != Some(-1) {
      assert s[k..][..n - k] == t[k..];
      LineEndExactly(s[k..], n - k - 2);
    }
  }

  lemma BulkExactly(s: Text, n: nat)
    requires s != [] && s[0] == DOLLAR
    ensures Next(s).Token? && Next(s).length == n <==> n <= |s| && IsToken(s[..n])
  {
    if Next(s).Token? && Next(s).length == n {
      BulkIsToken(s);
    }
    if n <= |s| && IsToken(s[..n]) {
      var k :| 3 <= k <= n && IsBulkSplit(s[..n], k);
      TokenIsBulk(s, n, k);
    }
  }

  /** The scan reads a token of `n` bytes exactly where the grammar has one, and knows
      which of them announce elements. */
  lemma NextExactly(s: Text, n: nat)
    requires s != []
    ensures Next(s).Token? && Next(s).length == n <==> n <= |s| && IsToken(s[..n])
    ensures Next(s).Token? ==> (Next(s).opens <==> IsOpen(s[..Next(s).length]))
  {
    if s[0] == DOLLAR {
      BulkExactly(s, n);
    } else {
      if 3 <= n <= |s| {
        LineOfToken(s, n);
      }
      if Next(s).Token? {
        LineOfToken(s, Next(s).length);
      }
    }
  }

  lemma LineOfToken(s: Text, n: nat)
    requires 3 <= n <= |s|
    ensures LineEnd(s) == Some(n - 2) <==> IsLine(s[..n])
    ensures s[..n][1..n - 2] == s[1..n - 2]
  {
    LineEndExactly(s, n - 2);
  }

  // ---- More bytes behind an item ----

  lemma LineEndStable(s: Text, x: Text)
    ensures LineEnd(s).Some? ==> LineEnd(s + x) == LineEnd(s)
  {
    var p := CrIndex(s);
    if p < |s| {
      assert (s + x)[..p] == s[..p];
      CrIndexUnique(s + x, p);
    }
  }

  /** Appending bytes never changes a token that is there nor an `Error`; only an
      `Incompleted` item can change. */
  lemma NextStable(s: Text, x: Text)
    requires s != []
    ensures Next(s) != Stuck(Incompleted) ==> Next(s + x) == Next(s)
  {
    LineEndStable(s, x);
    match LineEnd(s)
    case None =>
    case Some(p) =>
      assert (s + x)[..p] == s[..p];
      assert p == 0 ==> s[0] == CR;
      assert (s + x)[p + 2..] == s[p + 2..] + x;
      LineEndStable(s[p + 2..], x);
  }

  /** No token is a proper prefix of another. */
  lemma TokensPrefixFree(t: Text, u: Text)
    requires IsToken(t) && IsToken(u) && t <= u
    ensures t == u
  {
    assert t == u[..|t|];
    NextExactly(u, |t|);
    assert u == u[..|u|];
    NextExactly(u, |u|);
  }

  /** What stays of a text when its tokens are read. */
  function Left(s: Text): (r: Text)
    ensures s == s[..FlatEnd(s)] + r
  {
    s[FlatEnd(s)..]
  }

  /** The scan of a longer text passes the tokens of the shorter one and goes on. */
  lemma {:induction false} ScanAppend(s: Text, x: Text)
    ensures Tokens(s + x) == Tokens(s) + Tokens(Left(s) + x)
    ensures FlatVerdict(s + x) == FlatVerdict(Left(s) + x)
    ensures FlatEnd(s + x) == FlatEnd(s) + FlatEnd(Left(s) + x)
    ensures HasOpen(s + x) <==> HasOpen(s) || HasOpen(Left(s) + x)
  {
    hide Next;
    if s != [] && Next(s).Token? {
      var n := Next(s).length;
      NextStable(s, x);
      ScanAppend(s[n..], x);
      assert (s + x)[n..] == s[n..] + x && (s + x)[..n] == s[..n];
      assert Left(s) == Left(s[n..]);
    } else {
      assert Left(s) == s;
    }
  }

  lemma {:induction false} LeftIsStuck(s: Text)
    ensures Left(s) != [] ==> Next(Left(s)) == Stuck(FlatVerdict(s))
  {
    hide Next;
    if s != [] && Next(s).Token? {
      LeftIsStuck(s[Next(s).length..]);
      assert Left(s) == Left(s[Next(s).length..]);
    } else {
      assert Left(s) == s;
    }
  }

  lemma {:induction false} CompleteEnd(s: Text)
    ensures Complete(s) <==> FlatEnd(s) == |s|
    ensures Complete(s) <==> Left(s) == []
  {
    hide Next;
    if s != [] && Next(s).Token? {
      CompleteEnd(s[Next(s).length..]);
    }
  }

  /** Behind a complete text the scan starts afresh. */
  lemma CompleteAppend(s: Text, x: Text)
    requires Complete(s)
    ensures FlatVerdict(s + x) == FlatVerdict(x) && Tokens(s + x) == Tokens(s) + Tokens(x)
    ensures HasOpen(s + x) <==> HasOpen(s) || HasOpen(x)
  {
    CompleteEnd(s);
    ScanAppend(s, x);
    assert Left(s) + x == x;
  }

  predicate AllTokens(ts: seq<Text>) {
    forall k :: 0 <= k < |ts| ==> IsToken(ts[k])
  }

  lemma {:induction false} TokensAreTokens(s: Text)
    ensures AllTokens(Tokens(s))
    ensures Concat(Tokens(s)) == s[..FlatEnd(s)]
  {
    hide Next, IsToken;
    if s != [] && Next(s).Token? {
      NextExactly(s, Next(s).length);
      var n := Next(s).length;
      TokensAreTokens(s[n..]);
      assert s[..FlatEnd(s)] == s[..n] + s[n..][..FlatEnd(s[n..])];
    }
  }

  lemma {:induction false} TokensOfConcat(ts: seq<Text>)
    requires AllTokens(ts)
    ensures Tokens(Concat(ts)) == ts && Complete(Concat(ts))
    ensures HasOpen(Concat(ts)) <==> exists k :: 0 <= k < |ts| && IsOpen(ts[k])
  {
    if ts != [] {
      var s, n := Concat(ts), |ts[0]|;
      assert s[..n] == ts[0] && s[n..] == Concat(ts[1..]);
      NextExactly(s, n);
      hide Next, IsToken;
      TokensOfConcat(ts[1..]);
      assert forall k :: 0 < k < |ts| ==> ts[k] == ts[1..][k - 1];
      assert ts == [ts[0]] + ts[1..];
    }
  }

  lemma OneToken(t: Text)
    requires IsToken(t)
    ensures Complete(t) && Tokens(t) == [t] && (HasOpen(t) <==> IsOpen(t))
  {
    hide Next, Tokens, FlatVerdict, HasOpen, IsToken;
    ConcatOne(t);
    TokensOfConcat([t]);
    if IsOpen(t) {
      assert IsOpen([t][0]);
    }
  }

  /** A text scans to its end exactly when it is a row of tokens, and then it is one in a
      single way. */
  lemma UniqueTokens(s: Text)
    ensures Complete(s) <==> exists ts :: AllTokens(ts) && Concat(ts) == s
    ensures forall ts :: AllTokens(ts) && Concat(ts) == s ==> ts == Tokens(s)
  {
    CompleteEnd(s);
    TokensAreTokens(s);
    forall ts | AllTokens(ts) && Concat(ts) == s ensures ts == Tokens(s) && Complete(s) {
      TokensOfConcat(ts);
    }
    if Complete(s) {
      assert AllTokens(Tokens(s)) && Concat(Tokens(s)) == s;
    }
  }
}
