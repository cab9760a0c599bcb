/** RESP2 values, their encoding (Redis serialization protocol specification, RESP2: simple
    strings, simple errors, integers, bulk strings, arrays and their null forms), and how the
    framer reads it. */
module RespValue {
  import opened Bytes
  import opened Numbers
  import opened Framing
  import opened Grammar
  import Fragmentation
  import Messages

  datatype Value =
    | Simple(text: Text)
    | Failure(text: Text)
    | Integer(n: int)
    | Bulk(payload: Text)
    | NullBulk
    | Array(elements: seq<Value>)
    | NullArray

  function Header(kind: Byte, n: int): Text {
    [kind] + Decimal(n) + CRLF
  }

  function Encode(v: Value): Text {
    match v
    case Simple(text) => [PLUS] + text + CRLF
    case Failure(text) => [MINUS] + text + CRLF
    case Integer(n) => Header(COLON, n)
    case Bulk(payload) => Header(DOLLAR, |payload|) + payload + CRLF
    case NullBulk => Header(DOLLAR, -1)
    case Array(elements) => Header(STAR, |elements|) + EncodeAll(elements)
    case NullArray => Header(STAR, -1)
  }

  function EncodeAll(vs: seq<Value>): Text {
    if vs == [] then [] else Encode(vs[0]) + EncodeAll(vs[1..])
  }

  /** What the framer needs: no carriage return in a text, lengths and counts of an `int`. */
  predicate Framable(v: Value) {
    match v
    case Simple(text) => NoCr(text)
    case Failure(text) => NoCr(text)
    case Bulk(payload) => NoCr(payload) && |payload| <= INT_MAX
    case Array(elements) => |elements| <= INT_MAX && forall e | e in elements :: Framable(e)
    case _ => true
  }

  lemma HeaderIsLine(kind: Byte, n: int)
    requires kind != CR
    ensures var h := Header(kind, n);
            |h| >= 3 && IsLine(h) && h[0] == kind && HeaderNumber(h) == Fit(n)
  {
    StoiDecimal(n);
    var h := Header(kind, n);
    assert h[..|h| - 2] == [kind] + Decimal(n);
    assert h[1..|h| - 2] == Decimal(n);
  }

  lemma LineIsToken(kind: Byte, text: Text)
    requires IsLineType(kind) && NoCr(text)
    ensures IsScalar([kind] + text + CRLF)
  {
    var t := [kind] + text + CRLF;
    assert t[..|t| - 2] == [kind] + text;
  }

  lemma BulkSplit(p: Text)
    requires |p| <= INT_MAX
    ensures var h, e := Header(DOLLAR, |p|), Encode(Bulk(p));
            3 <= |h| <= |e| && e[0] == DOLLAR && (IsBulkSplit(e, |h|) <==> NoCr(p))
  {
    var h, e := Header(DOLLAR, |p|), Encode(Bulk(p));
    HeaderIsLine(DOLLAR, |p|);
    PlusAssociates(h, p, CRLF);
    assert e == h + (p + CRLF);
    assert e[..|h|] == h && e[|h|..] == p + CRLF;
    var t := p + CRLF;
    assert t[..|t| - 2] == p;
  }

  /** A header line has one end. */
  lemma OneHeader(e: Text, j: nat, k: nat)
    requires 2 <= j <= |e| && 2 <= k <= |e| && IsLine(e[..j]) && IsLine(e[..k])
    ensures j == k
  {
    LineEndExactly(e, j - 2);
    LineEndExactly(e, k - 2);
  }

  /** A bulk string is read as one frame of header, declared length and two more bytes exactly
      when its payload holds no carriage return. */
  lemma BulkFrameExactly(p: Text)
    requires |p| <= INT_MAX
    ensures var e := Encode(Bulk(p));
            && |e| == |Header(DOLLAR, |p|)| + |p| + 2
            && (Next(e) == Token(|e|, false) <==> NoCr(p))
            && (Fragmentation.Read(e).segments == [e] <==> NoCr(p))
  {
    var h, e := Header(DOLLAR, |p|), Encode(Bulk(p));
    BulkSplit(p);
    HeaderIsLine(DOLLAR, |p|);
    assert e[..|h|] == h;
    BulkExactly(e, |e|);
    assert e[..|e|] == e;
    if IsToken(e) {
      var k :| 3 <= k <= |e| && IsBulkSplit(e, k);
      OneHeader(e, k, |h|);
    }
    assert IsToken(e) <==> NoCr(p);
    NextBulkIsScalar(e);
    hide Next, IsToken;
    OneFrame(e);
  }

  lemma NextBulkIsScalar(e: Text)
    requires e != [] && e[0] == DOLLAR
    ensures Next(e).Token? ==> !Next(e).opens
  {
  }

  lemma OneFrame(e: Text)
    requires e != [] && (Next(e).Token? ==> !Next(e).opens)
    ensures Fragmentation.Read(e).segments == [e] <==> Next(e) == Token(|e|, false)
  {
    hide Next, Fragmentation.Read;
    Fragmentation.ReadRound(e);
    Fragmentation.EmptyRead();
    if Next(e).Token? {
      var n := Next(e).length;
      assert Fragmentation.Read(e).segments[0] == e[..n];
      assert n == |e| ==> e[..n] == e && e[n..] == [];
      assert n < |e| ==> e[..n] != e;
    }
  }

  lemma HeaderMessage(kind: Byte, n: int)
    requires kind == STAR && -1 <= n <= INT_MAX
    ensures IsToken(Header(kind, n)) && (IsOpen(Header(kind, n)) <==> n > 0)
  {
    HeaderIsLine(kind, n);
  }

  lemma {:induction false} EncodeIsMessage(v: Value)
    requires Framable(v)
    ensures Messages.IsMessage(Encode(v))
    decreases v, 0
  {
    match v
    case Simple(text) => LineIsToken(PLUS, text);
    case Failure(text) => LineIsToken(MINUS, text);
    case Integer(n) => StoiDecimal(n); LineIsToken(COLON, Decimal(n));
    case Bulk(p) => BulkSplit(p);
    case NullBulk =>
      HeaderIsLine(DOLLAR, -1);
      var h := Header(DOLLAR, -1);
      assert h[..|h|] == h;
      assert IsBulkSplit(h, |h|);
    case NullArray => HeaderMessage(STAR, -1);
    case Array(elements) =>
      HeaderMessage(STAR, |elements|);
      EncodeAllComplete(elements);
      var h := Header(STAR, |elements|);
      if elements == [] {
        assert Encode(v) == h;
      } else {
        OpenThenTokens(h, EncodeAll(elements));
      }
  }

  lemma OpenThenTokens(h: Text, x: Text)
    requires IsOpen(h) && Complete(x)
    ensures Messages.IsOpened(h + x)
  {
    assert (h + x)[..|h|] == h && (h + x)[|h|..] == x;
    NextExactly(h + x, |h|);
  }

  lemma {:induction false} EncodeAllComplete(vs: seq<Value>)
    requires forall v | v in vs :: Framable(v)
    ensures Complete(EncodeAll(vs))
    decreases vs, 1
  {
    hide FlatVerdict, Messages.IsMessage, Framable;
    if vs == [] {
      Fragmentation.EmptyRead();
    } else {
      EncodeIsMessage(vs[0]);
      Messages.MessageComplete(Encode(vs[0]));
      EncodeAllComplete(vs[1..]);
      CompleteAppend(Encode(vs[0]), EncodeAll(vs[1..]));
    }
  }

  /** The encoding of any value, nested as deep as it may be, alone in the buffer: parsed
      completely, to its full length, and handed over in exactly one piece. */
  lemma EncodeIsOneFrame(v: Value)
    requires Framable(v)
    ensures Resp(Encode(v)) == ParseReturn(|Encode(v)|, Completed)
    ensures Segments(Encode(v)) == [Encode(v)]
  {
    EncodeIsMessage(v);
    Messages.MessageComplete(Encode(v));
    Messages.OneReadExactly([Encode(v)]);
    ConcatOne(Encode(v));
  }

  // ---- The tokens of an encoded value ----

  /** A value that is no array with elements is one piece; an array is its header and then the
      pieces of its elements. */
  function Pieces(v: Value): seq<Text>
    decreases v, 0
  {
    if v.Array? then [Header(STAR, |v.elements|)] + PiecesOfAll(v.elements) else [Encode(v)]
  }

  function PiecesOfAll(vs: seq<Value>): seq<Text>
    decreases vs, 1
  {
    if vs == [] then [] else Pieces(vs[0]) + PiecesOfAll(vs[1..])
  }

  lemma {:induction false} PiecesFit(v: Value)
    requires Framable(v)
    ensures AllTokens(Pieces(v)) && Concat(Pieces(v)) == Encode(v)
    decreases v, 0
  {
    hide IsToken;
    if v.Array? {
      var h := Header(STAR, |v.elements|);
      HeaderMessage(STAR, |v.elements|);
      PiecesOfAllFit(v.elements);
      ConcatCons(h, PiecesOfAll(v.elements));
    } else {
      EncodeIsMessage(v);
      ScalarUnlessArray(v);
      ConcatOne(Encode(v));
    }
  }

  lemma ScalarUnlessArray(v: Value)
    requires Framable(v) && !v.Array?
    ensures IsToken(Encode(v))
  {
    EncodeIsMessage(v);
    var e := Encode(v);
    assert e[0] != STAR || v.NullArray?;
    if v.NullArray? {
      HeaderMessage(STAR, -1);
    }
  }

  lemma {:induction false} PiecesOfAllFit(vs: seq<Value>)
    requires forall v | v in vs :: Framable(v)
    ensures AllTokens(PiecesOfAll(vs)) && Concat(PiecesOfAll(vs)) == EncodeAll(vs)
    decreases vs, 1
  {
    hide IsToken, Framable, Encode, Pieces;
    if vs != [] {
      PiecesFit(vs[0]);
      PiecesOfAllFit(vs[1..]);
      ConcatAppend(Pieces(vs[0]), PiecesOfAll(vs[1..]));
    }
  }

  /** The framer's tokens of an encoded value, nested as deep as it may be, are its headers and
      scalars from left to right, each with its own full frame. */
  lemma TokensArePieces(v: Value)
    requires Framable(v)
    ensures Tokens(Encode(v)) == Pieces(v)
  {
    hide Framable, Encode, Pieces, IsToken;
    PiecesFit(v);
    TokensOfConcat(Pieces(v));
  }

  /** A buffer of at most 13 bytes can cost 2^31 calls of `process_resp`: the header alone is one
      for each element it announces. */
  lemma HeaderCalls(n: int)
    requires 0 < n <= INT_MAX
    ensures Calls(Header(STAR, n)) == 1 + n
  {
    var h := Header(STAR, n);
    HeaderMessage(STAR, n);
    HeaderIsLine(STAR, n);
    LineEndExactly(h, |h| - 2);
    assert h[..|h|] == h;
    NextExactly(h, |h|);
    hide Next, Stoi, IsToken, LineEnd;
    assert h[|h|..] == [];
    assert Complete([]) && Calls([]) == 1;
  }

  // ---- Characters and limits ----

  /** The bytes of an ASCII text. */
  function Raw(s: string): (t: Text)
    requires forall k :: 0 <= k < |s| ==> s[k] as int < 128
    ensures |t| == |s| && forall k :: 0 <= k < |t| ==> t[k] as int == s[k] as int
  {
    if s == [] then [] else [s[0] as int as Byte] + Raw(s[1..])
  }

  /** The constants are the characters of the wire format, and digits and white space those of ASCII. */
  lemma Alphabet(b: Byte)
    ensures Raw("+-:$*\r\n") == [PLUS, MINUS, COLON, DOLLAR, STAR, CR, LF] && CRLF == Raw("\r\n")
    ensures IsDigit(b) <==> '0' as int <= b as int <= '9' as int
    ensures IsSpace(b) <==> b as int == ' ' as int || '\t' as int <= b as int <= '\r' as int
  {
  }

  /** The header of a bulk string or an array, for every length or count that can be printed. */
  lemma HeaderExactly(n: int)
    ensures var h := Header(DOLLAR, n);
            h != [] && Next(h) == if n == -1 then Token(|h|, false)
                                  else if 0 <= n <= 2147483647 then Stuck(Incompleted) else Stuck(Error)
    ensures var h := Header(STAR, n);
            h != [] && Next(h) == if -1 <= n <= 2147483647 then Token(|h|, n > 0) else Stuck(Error)
  {
    HeaderIsLine(DOLLAR, n);
    HeaderIsLine(STAR, n);
    LineAlone(Header(DOLLAR, n));
    LineAlone(Header(STAR, n));
    hide Stoi, Decimal, Header, LineEnd;
  }

  lemma LineAlone(h: Text)
    requires |h| >= 3 && IsLine(h)
    ensures LineEnd(h) == Some(|h| - 2) && LineEnd(h[|h|..]) == None
  {
    assert h[..|h|] == h;
    LineEndExactly(h, |h| - 2);
  }
}
