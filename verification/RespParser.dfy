/** `src/resp_parser.cpp` in its own form: the line functions read a storage `mem` of which
    the first `len` bytes are the buffer, and the two mutually recursive loops walk it. */
module RespParser {
  import opened Bytes
  import Numbers
  import opened Framing
  import opened Grammar

  /** What the buffer holds from `index` on. */
  function Rest(mem: Text, len: nat, index: nat): (s: Text)
    requires index <= len <= |mem|
    ensures |s| == len - index
    ensures forall k :: 0 <= k < len - index ==> s[k] == mem[index + k]
  {
    mem[..len][index..]
  }

  /** `std::find(buf + lo, buf + hi, '\r')`. */
  function FindCr(mem: Text, lo: nat, hi: nat): (p: nat)
    requires lo <= hi <= |mem|
    ensures lo <= p <= hi
    ensures p - lo == CrIndex(Rest(mem, hi, lo))
    decreases hi - lo
  {
    if lo == hi || mem[lo] == CR then lo
    else
      assert Rest(mem, hi, lo)[1..] == Rest(mem, hi, lo + 1);
      FindCr(mem, lo + 1, hi)
  }

  /** `find_CRLF_index`: it reads one byte behind the carriage return it found, or two
      behind the end of the buffer; 0 says that no line ends here. */
  function FindCrlf(mem: Text, len: nat, index: nat): (r: nat)
    requires len + 2 <= |mem|
    ensures r != 0 ==> index <= r <= len
  {
    if index > len then 0
    else
      var p := FindCr(mem, index, len);
      if mem[p + 1] == LF then p else 0
  }

  /** The storage assumption: two more readable bytes, neither of them a line feed. */
  predicate Slack(mem: Text, len: nat) {
    len + 2 <= |mem| && mem[len] != LF && mem[len + 1] != LF
  }

  /** How the bytes behind the buffer are taken for the end of its last line: a line feed behind a
      final carriage return, or a line feed at distance 1 behind anything else. */
  function Beyond(mem: Text, len: nat): Text
    requires 0 < len && len + 2 <= |mem|
  {
    if mem[len - 1] == CR then (if mem[len] == LF then [LF] else [])
    else if mem[len + 1] == LF then CRLF else []
  }

  /** The buffer from `index` on with that behind it. */
  function Wide(mem: Text, len: nat, index: nat): (w: Text)
    requires 0 < len && len + 2 <= |mem| && index <= len
    ensures len - index <= |w| <= len - index + 2
  {
    Rest(mem, len, index) + Beyond(mem, len)
  }

  /** The search finds the line ends of the buffer, and the one that `Beyond` adds; the 0 that
      means "none" is never a position. */
  lemma FindCrlfIsLineEnd(mem: Text, len: nat, index: nat)
    requires 0 < len && len + 2 <= |mem| && (index < len || (index == len && mem[len - 1] != CR))
    requires 0 < index || mem[0] != CR
    ensures match LineEnd(Wide(mem, len, index))
            case None => FindCrlf(mem, len, index) == 0
            case Some(p) => FindCrlf(mem, len, index) == index + p && 0 < index + p
  {
    var w, p := Wide(mem, len, index), FindCr(mem, index, len);
    CrSeen(mem, len, index, p);
    hide FindCr, LineEnd, Wide, Beyond, Rest;
    if p < len || mem[len + 1] == LF {
      LineEndAt(w, p - index);
    } else {
      NoCrNoLine(w);
    }
  }

  lemma LineEndAt(w: Text, q: nat)
    requires q < |w| && w[q] == CR && NoCr(w[..q])
    ensures LineEnd(w) == if q + 1 < |w| && w[q + 1] == LF then Some(q) else None
  {
    CrIndexUnique(w, q);
  }

  lemma NoCrNoLine(w: Text)
    requires NoCr(w)
    ensures LineEnd(w) == None
  {
  }

  /** What the search has found, in the bytes seen. */
  lemma CrSeen(mem: Text, len: nat, index: nat, p: nat)
    requires 0 < len && len + 2 <= |mem| && (index < len || (index == len && mem[len - 1] != CR))
    requires p == FindCr(mem, index, len)
    ensures var w := Wide(mem, len, index);
            && NoCr(w[..p - index])
            && if p + 1 < len then w[p - index] == CR && w[p + 1 - index] == mem[p + 1]
               else if p < len then
                 w[p - index] == CR && |w| == p - index + (if mem[len] == LF then 2 else 1)
                 && (mem[len] == LF ==> w[p + 1 - index] == LF)
               else
                 |w| == len - index + (if mem[len + 1] == LF then 2 else 0)
                 && (if mem[len + 1] == LF then w[len - index] == CR && w[len - index + 1] == LF else NoCr(w))
  {
    var s, w := Rest(mem, len, index), Wide(mem, len, index);
    assert w[..p - index] == s[..p - index];
    if p == len {
      assert NoCr(s) by { assert s[..len - index] == s; }
      assert index < len ==> mem[len - 1] == s[len - 1 - index] && s[len - 1 - index] != CR;
    } else {
      assert s[p - index] == mem[p];
    }
    hide CrIndex;
  }

  lemma TextOf(mem: Text, len: nat, index: nat, j: nat)
    requires 0 < len && len + 2 <= |mem| && index < j <= len
    ensures Wide(mem, len, index)[1..j - index] == mem[index + 1..j]
    ensures Wide(mem, len, index)[j - index..] == Wide(mem, len, j)
  {
    var s, x := Rest(mem, len, index), Beyond(mem, len);
    assert s[j - index..] == Rest(mem, len, j);
    assert (s + x)[j - index..] == s[j - index..] + x;
    assert (s + x)[1..j - index] == s[1..j - index];
  }

  /** `process_string`, `process_error` and `process_integer`, which have one body. */
  function ProcessLine(mem: Text, len: nat, index: nat): ParseReturn
    requires len + 2 <= |mem| && index < len
  {
    var found := FindCrlf(mem, len, index);
    if found != 0 then ParseReturn(found - index + 2, Completed) else ParseReturn(0, Incompleted)
  }

  /** `process_bulk`. */
  function ProcessBulk(mem: Text, len: nat, index: nat): ParseReturn
    requires len + 2 <= |mem| && index < len && mem[index] == DOLLAR
  {
    FindCrlfIsLineEnd(mem, len, index);
    var found := FindCrlf(mem, len, index);
    if found == 0 then ParseReturn(0, Incompleted)
    else
      FoundBehind(mem, len, index);
      match Numbers.Stoi(mem[index + 1..found])
      case None => ParseReturn(0, Error)
      case Some(bulkLen) =>
        if bulkLen == -1 then ParseReturn(found - index + 2, Completed)
        else if bulkLen >= 0 then
          var found2 := FindCrlf(mem, len, found + 2);
          if found2 != 0 then ParseReturn(found2 - index + 2, Completed)
          else ParseReturn(0, Incompleted)
        else ParseReturn(0, Error)
  }

  lemma FoundBehind(mem: Text, len: nat, index: nat)
    requires len + 2 <= |mem| && index < len && mem[index] != CR && FindCrlf(mem, len, index) != 0
    ensures index < FindCrlf(mem, len, index)
  {
    assert Rest(mem, len, index)[0] == mem[index];
  }

  /** The result of an item that is no array with elements. */
  function AsReturn(step: Step): ParseReturn {
    match step
    case Token(n, _) => ParseReturn(n, Completed)
    case Stuck(v) => ParseReturn(0, v)
  }

  lemma LineRefines(mem: Text, len: nat, index: nat)
    requires len + 2 <= |mem| && index < len && IsLineType(mem[index])
    ensures ProcessLine(mem, len, index) == AsReturn(Next(Wide(mem, len, index)))
  {
    assert Wide(mem, len, index)[0] == mem[index];
    FindCrlfIsLineEnd(mem, len, index);
  }

  lemma BulkRefines(mem: Text, len: nat, index: nat)
    requires len + 2 <= |mem| && index < len && mem[index] == DOLLAR
    ensures ProcessBulk(mem, len, index) == AsReturn(Next(Wide(mem, len, index)))
  {
    hide Numbers.Stoi, FindCrlf, LineEnd, Beyond;
    var w := Wide(mem, len, index);
    assert w[0] == DOLLAR;
    FindCrlfIsLineEnd(mem, len, index);
    match LineEnd(w)
    case None =>
    case Some(p) =>
      FoundBehind(mem, len, index);
      TextOf(mem, len, index, index + p);
      LineInBuffer(mem, len, index, p);
      assert Next(w) == NextBulk(w, p);
      hide Next, Wide, Rest;
      if index + p + 2 <= len {
        TextOf(mem, len, index, index + p + 2);
        FindCrlfIsLineEnd(mem, len, index + p + 2);
      } else {
        NoLine(w[p + 2..]);
        NothingFound(mem, len, index + p + 2);
      }
  }

  lemma NoLine(w: Text)
    requires |w| == 0
    ensures LineEnd(w) == None
  {
  }

  lemma NothingFound(mem: Text, len: nat, index: nat)
    requires len + 2 <= |mem| && index > len
    ensures FindCrlf(mem, len, index) == 0
  {
  }

  /** A line ends in the buffer, with no carriage return behind it, or with the last byte seen. */
  lemma LineInBuffer(mem: Text, len: nat, index: nat, p: nat)
    requires len + 2 <= |mem| && index < len && LineEnd(Wide(mem, len, index)) == Some(p)
    ensures if index + p + 2 <= len then index + p + 2 < len || mem[len - 1] != CR else |Wide(mem, len, index)| == p + 2
  {
    var s, w := Rest(mem, len, index), Wide(mem, len, index);
    assert forall k :: 0 <= k < |s| ==> w[k] == s[k] == mem[index + k];
    hide LineEnd;
  }

  lemma HeaderRefines(mem: Text, len: nat, index: nat)
    requires len + 2 <= |mem| && index < len && mem[index] == STAR
    ensures var w, found := Wide(mem, len, index), FindCrlf(mem, len, index);
            if found == 0 then Next(w) == Stuck(Incompleted)
            else
              && index < found <= len && found - index + 2 <= |w|
              && match Numbers.Stoi(mem[index + 1..found])
                 case None => Next(w) == Stuck(Error)
                 case Some(n) =>
                   Next(w) == (if n < -1 then Stuck(Error) else Token(found - index + 2, n > 0))
                   && (n > 0 ==> OpenedCount(w) == n)
  {
    hide Numbers.Stoi, Beyond;
    var w := Wide(mem, len, index);
    assert w[0] == STAR;
    FindCrlfIsLineEnd(mem, len, index);
    match LineEnd(w)
    case None =>
    case Some(p) =>
      FoundBehind(mem, len, index);
      TextOf(mem, len, index, index + p);
  }

  // ---- What `process_resp` takes the buffer for ----

  /** A buffer whose scan reaches its end is taken as it is; any other with what is beyond it. */
  function Seen(mem: Text, len: nat, index: nat): Text
    requires len + 2 <= |mem|
  {
    if index >= len then []
    else if Complete(Rest(mem, len, index)) then Rest(mem, len, index)
    else Wide(mem, len, index)
  }

  lemma SeenIsRest(mem: Text, len: nat, index: nat)
    requires Slack(mem, len) && index <= len
    ensures Seen(mem, len, index) == Rest(mem, len, index)
  {
    hide FlatVerdict;
    if index < len {
      assert Beyond(mem, len) == [];
      assert Wide(mem, len, index) == Rest(mem, len, index) + [];
    }
  }

  lemma SeenItem(mem: Text, len: nat, index: nat)
    requires len + 2 <= |mem| && index < len
    ensures var e := Seen(mem, len, index);
            e != [] && len - index <= |e| && Next(e) == Next(Wide(mem, len, index))
  {
    hide Next, Beyond;
    NextStable(Rest(mem, len, index), Beyond(mem, len));
  }

  /** A token that the bytes beyond complete reaches to the last of them. */
  lemma BeyondToTheEnd(mem: Text, len: nat, index: nat)
    requires len + 2 <= |mem| && index < len && Next(Rest(mem, len, index)).Stuck?
    requires Next(Wide(mem, len, index)).Token?
    ensures Next(Wide(mem, len, index)).length == |Wide(mem, len, index)| > len - index
  {
    var s, w := Rest(mem, len, index), Wide(mem, len, index);
    var n := Next(w).length;
    TokenEndsLine(w);
    NextExactly(w, Next(w).length);
    if n <= |s| {
      assert w[..n] == s[..n];
      NextExactly(s, n);
    }
  }

  lemma TokenEndsLine(s: Text)
    requires s != [] && Next(s).Token?
    ensures s[Next(s).length - 1] == LF
  {
  }

  lemma Slice(mem: Text, len: nat, index: nat, n: nat)
    requires index <= index + n <= len <= |mem|
    ensures Rest(mem, len, index)[n..] == Rest(mem, len, index + n)
    ensures Rest(mem, len, index)[..n] == mem[index..index + n]
  {
  }

  /** Behind a token, it sees what is left. */
  lemma SeenBehind(mem: Text, len: nat, index: nat)
    requires len + 2 <= |mem| && index < len && Next(Seen(mem, len, index)).Token?
    ensures var n := Next(Seen(mem, len, index)).length;
            index + n <= len + 2 && Seen(mem, len, index + n) == Seen(mem, len, index)[n..]
  {
    hide Next, Beyond;
    var s, x, e := Rest(mem, len, index), Beyond(mem, len), Seen(mem, len, index);
    var n := Next(e).length;
    SeenItem(mem, len, index);
    NextStable(s, x);
    if Next(s).Token? {
      assert Complete(s) <==> Complete(s[n..]);
      Slice(mem, len, index, n);
      if !Complete(s) {
        assert Complete([]);
        assert (s + x)[n..] == s[n..] + x;
      }
    } else {
      BeyondToTheEnd(mem, len, index);
      assert e[n..] == [];
    }
  }

  /** The same behind a whole item, where an opened array reaches to the end. */
  lemma SeenBehindItem(mem: Text, len: nat, index: nat)
    requires len + 2 <= |mem| && index < len && ItemReturn(Seen(mem, len, index)).verdict == Completed
    ensures var n := ItemReturn(Seen(mem, len, index)).consumed;
            0 < n && index + n <= len + 2 && Seen(mem, len, index + n) == Seen(mem, len, index)[n..]
  {
    hide Next, Seen, FlatVerdict;
    var e := Seen(mem, len, index);
    SeenItem(mem, len, index);
    SeenBehind(mem, len, index);
    SeenLength(mem, len, index);
    if Next(e).opens {
      SeenNothing(mem, len, index + |e|);
      assert e[|e|..] == [];
    }
  }

  lemma SeenLength(mem: Text, len: nat, index: nat)
    requires len + 2 <= |mem|
    ensures |Seen(mem, len, index)| <= if index < len then len - index + 2 else 0
  {
    hide FlatVerdict, Beyond;
  }

  lemma SeenNothing(mem: Text, len: nat, index: nat)
    requires len + 2 <= |mem| && index >= len
    ensures Seen(mem, len, index) == []
  {
  }

  /** `process_array`. `parses` counts the items parsed below it, itself included, `depth` the
      nesting of `process_resp` calls below it, and `calls` their number. The calls for the elements get
      no callback, so none of `texts` comes of them. */
  method ProcessArray(mem: Text, len: nat, index: nat)
    returns (r: ParseReturn, texts: seq<Text>, ghost parses: nat, ghost depth: nat, ghost calls: nat)
    requires len + 2 <= |mem| && index < len && mem[index] == STAR
    ensures r == ItemReturn(Seen(mem, len, index)) && texts == []
    ensures parses == ItemParses(Seen(mem, len, index)) && depth == ItemDepth(Seen(mem, len, index))
    ensures calls == ItemCalls(Seen(mem, len, index))
    decreases len - index, 0
  {
    hide Next, Seen, OpenedCount;
    ghost var e := Seen(mem, len, index);
    parses, depth, calls, texts := 1, 0, 0, [];
    HeaderRefines(mem, len, index);
    HeaderSeen(mem, len, index);
    var found := FindCrlf(mem, len, index);
    var subIndex := found + 2;
    if found == 0 {
      return ParseReturn(0, Incompleted), texts, parses, depth, calls;
    }
    var size := Numbers.Stoi(mem[index + 1..found]);
    if size == None {
      return ParseReturn(0, Error), texts, parses, depth, calls;
    }
    var arraySize := size.value;
    if arraySize == 0 || arraySize == -1 {
      return ParseReturn(found - index + 2, Completed), texts, parses, depth, calls;
    } else if arraySize < -1 {
      return ParseReturn(0, Error), texts, parses, depth, calls;
    }
    SeenBehind(mem, len, index);
    SeenNothing(mem, len, index + |e|);
    ghost var rest := Seen(mem, len, subIndex);
    var i := 0;
    while i < arraySize
      invariant 0 <= i <= arraySize && texts == []
      invariant i == 0 ==> subIndex == found + 2 && parses == 1 && depth == 0 && calls == 0
      invariant i > 0 ==> subIndex == index + |e| && Complete(rest)
      invariant i > 0 ==> parses == 1 + Parses(rest) && depth == 1 + OpenCount(rest) && calls == Calls(rest) + i - 1
    {
      var result, inner, p, d, c := ProcessResp(mem, len, false, subIndex);
      parses, depth, calls := parses + p, Max(depth, d), calls + c;
      if |inner| > 0 {
        texts := texts + inner;
      }
      if result.verdict != Completed {
        return ParseReturn(0, Error), texts, parses, depth, calls;
      }
      subIndex := subIndex + result.consumed;
      i := i + 1;
    }
    r := ParseReturn(subIndex - index, Completed);
  }

  lemma HeaderSeen(mem: Text, len: nat, index: nat)
    requires len + 2 <= |mem| && index < len && mem[index] == STAR
    ensures var e, w := Seen(mem, len, index), Wide(mem, len, index);
            && e != [] && Next(e) == Next(w) && len - index <= |e| <= len - index + 2
            && (Next(w).Token? && Next(w).opens ==> OpenedCount(e) == OpenedCount(w))
  {
    SeenItem(mem, len, index);
    SeenLength(mem, len, index);
    var s, x := Rest(mem, len, index), Beyond(mem, len);
    if Complete(s) && Next(s).opens {
      LineEndStable(s, x);
      var p := LineEnd(s).value;
      assert (s + x)[1..p] == s[1..p];
    }
  }

  /** The callback texts: consecutive slices of the storage, of the lengths of `parts`. */
  function Slices(mem: Text, at: nat, parts: seq<Text>): seq<Text>
    decreases |parts|
  {
    if parts == [] || at + |parts[0]| > |mem| then []
    else [mem[at..at + |parts[0]|]] + Slices(mem, at + |parts[0]|, parts[1..])
  }

  /** The loop of `process_resp` over `mem` from `index` has come to `processed`. */
  ghost predicate Passed(mem: Text, len: nat, index: nat, processed: nat, hasCallback: bool,
                         segments: seq<Text>, parses: nat, depth: nat, calls: nat)
    requires len + 2 <= |mem| && index <= processed
  {
    var s, t := Seen(mem, len, index), Seen(mem, len, processed);
    && Resp(s) == ParseReturn(processed - index + Resp(t).consumed, Resp(t).verdict)
    && (if hasCallback then Slices(mem, index, Segments(s)) == segments + Slices(mem, processed, Segments(t))
        else segments == [])
    && Parses(s) == parses + Parses(t)
    && 1 + OpenCount(s) == Max(depth, 1 + OpenCount(t)) && 1 <= depth
    && Calls(s) == calls + Calls(t) - 1
  }

  lemma PassedItem(mem: Text, len: nat, index: nat, processed: nat, hasCallback: bool,
                   segments: seq<Text>, parses: nat, depth: nat, calls: nat)
    requires len + 2 <= |mem| && index <= processed < len
    requires Passed(mem, len, index, processed, hasCallback, segments, parses, depth, calls)
    ensures Seen(mem, len, processed) != []
    ensures var t := Seen(mem, len, processed);
            var r := ItemReturn(t);
            var parses', depth', calls' := parses + ItemParses(t), Max(depth, 1 + ItemDepth(t)), calls + ItemCalls(t);
            if r.verdict == Completed then
              0 < r.consumed && processed + r.consumed <= len + 2
              && var text := mem[processed..processed + r.consumed];
                 Passed(mem, len, index, processed + r.consumed, hasCallback,
                        if hasCallback then segments + [text] else segments, parses', depth', calls')
            else
              Finished(mem, len, index, hasCallback, ParseReturn(processed - index, r.verdict),
                       segments, parses', depth', calls')
  {
    hide Next, Seen, Resp, Segments, Slices, Parses, OpenCount, Calls, ItemReturn, ItemParses, ItemDepth, ItemCalls;
    var t := Seen(mem, len, processed);
    SeenItem(mem, len, processed);
    RespRound(t);
    var r := ItemReturn(t);
    if r.verdict == Completed {
      var n := r.consumed;
      SeenBehindItem(mem, len, processed);
      var text, later := mem[processed..processed + n], Slices(mem, processed + n, Segments(t[n..]));
      SlicesFirst(mem, processed, n, t[..n], Segments(t[n..]));
      PlusAssociates(segments, [text], later);
    } else {
      SlicesNone(mem, processed);
    }
  }

  lemma SlicesFirst(mem: Text, at: nat, n: nat, first: Text, later: seq<Text>)
    requires |first| == n && at + n <= |mem|
    ensures Slices(mem, at, [first] + later) == [mem[at..at + n]] + Slices(mem, at + n, later)
  {
    assert ([first] + later)[1..] == later;
  }

  lemma SlicesNone(mem: Text, at: nat)
    ensures Slices(mem, at, []) == []
  {
  }

  ghost predicate Finished(mem: Text, len: nat, index: nat, hasCallback: bool,
                           r: ParseReturn, segments: seq<Text>, parses: nat, depth: nat, calls: nat)
    requires len + 2 <= |mem|
  {
    var s := Seen(mem, len, index);
    && r == Resp(s) && segments == (if hasCallback then Slices(mem, index, Segments(s)) else [])
    && parses == Parses(s) && depth == 1 + OpenCount(s) && calls == Calls(s)
  }

  lemma PassedAll(mem: Text, len: nat, index: nat, processed: nat, hasCallback: bool,
                  segments: seq<Text>, parses: nat, depth: nat, calls: nat)
    requires len + 2 <= |mem| && index <= processed && len <= processed
    requires Passed(mem, len, index, processed, hasCallback, segments, parses, depth, calls)
    ensures Finished(mem, len, index, hasCallback, ParseReturn(processed - index, Completed),
                     segments, parses, depth, calls)
  {
    hide Seen;
    SeenNothing(mem, len, processed);
  }

  lemma PassedNothing(mem: Text, len: nat, index: nat, hasCallback: bool)
    requires len + 2 <= |mem|
    ensures Passed(mem, len, index, index, hasCallback, [], 0, 1, 1)
  {
    hide Seen, Slices, Resp;
    var all := Slices(mem, index, Segments(Seen(mem, len, index)));
    assert [] + all == all;
  }

  /** `process_resp`, with the texts it hands to `on_resp_cb` in the order of the calls (none where
      the callback is null), against the flat scan of what it takes the buffer for. */
  method ProcessResp(mem: Text, len: nat, hasCallback: bool, index: nat)
    returns (r: ParseReturn, segments: seq<Text>, ghost parses: nat, ghost depth: nat, ghost calls: nat)
    requires len + 2 <= |mem| && index <= len + 2
    ensures r == Resp(Seen(mem, len, index))
    ensures segments == if hasCallback then Slices(mem, index, Segments(Seen(mem, len, index))) else []
    ensures parses == Parses(Seen(mem, len, index))
    ensures depth == 1 + OpenCount(Seen(mem, len, index))
    ensures calls == Calls(Seen(mem, len, index))
    decreases if index < len then len - index else 0, 2
  {
    hide Next, Seen;
    var processed := index;
    segments, parses, depth, calls := [], 0, 1, 1;
    PassedNothing(mem, len, index, hasCallback);
    while len > processed
      invariant index <= processed <= len + 2
      invariant Passed(mem, len, index, processed, hasCallback, segments, parses, depth, calls)
      decreases len + 2 - processed
    {
      PassedItem(mem, len, index, processed, hasCallback, segments, parses, depth, calls);
      var result, texts, itemParses, itemDepth, itemCalls := ProcessItem(mem, len, processed);
      if |texts| > 0 {
        segments := segments + texts;
      }
      parses, depth, calls := parses + itemParses, Max(depth, 1 + itemDepth), calls + itemCalls;
      if result.verdict != Completed {
        return ParseReturn(processed - index, result.verdict), segments, parses, depth, calls;
      }
      if hasCallback {
        segments := segments + [mem[processed..processed + result.consumed]];
      }
      processed := processed + result.consumed;
    }
    PassedAll(mem, len, index, processed, hasCallback, segments, parses, depth, calls);
    r := ParseReturn(processed - index, Completed);
  }

  /** The `switch` of `process_resp` on the type byte. */
  method ProcessItem(mem: Text, len: nat, processed: nat)
    returns (r: ParseReturn, texts: seq<Text>, ghost parses: nat, ghost depth: nat, ghost calls: nat)
    requires len + 2 <= |mem| && processed < len
    ensures Seen(mem, len, processed) != []
    ensures r == ItemReturn(Seen(mem, len, processed)) && texts == []
    ensures parses == ItemParses(Seen(mem, len, processed)) && depth == ItemDepth(Seen(mem, len, processed))
    ensures calls == ItemCalls(Seen(mem, len, processed))
    decreases len - processed, 1
  {
    hide Seen;
    parses, depth, calls, texts := 1, 0, 0, [];
    var c := mem[processed];
    SeenItem(mem, len, processed);
    assert Wide(mem, len, processed)[0] == c;
    if IsLineType(c) {
      LineRefines(mem, len, processed);
      r := ProcessLine(mem, len, processed);
    } else if c == DOLLAR {
      BulkRefines(mem, len, processed);
      r := ProcessBulk(mem, len, processed);
    } else if c == STAR {
      r, texts, parses, depth, calls := ProcessArray(mem, len, processed);
    } else {
      r := ParseReturn(0, Error);
    }
  }

  // ---- When the bytes behind the buffer matter ----

  lemma ItemNotEmpty(s: Text)
    requires s != [] && ItemReturn(s).verdict == Completed
    ensures ItemReturn(s).consumed > 0
  {
    hide Next;
  }

  lemma RestRound(mem: Text, len: nat, index: nat)
    requires index < len <= |mem|
    ensures var s := Rest(mem, len, index);
            var n := ItemReturn(s).consumed;
            if ItemReturn(s).verdict == Completed then
              0 < n <= len - index
              && Segments(s) == [mem[index..index + n]] + Segments(Rest(mem, len, index + n))
            else Segments(s) == []
  {
    hide Segments, Next, ItemReturn, Resp, Parses, Calls, OpenCount, ItemParses, ItemCalls, ItemDepth;
    var s := Rest(mem, len, index);
    RespRound(s);
    hide Rest;
    if ItemReturn(s).verdict == Completed {
      ItemNotEmpty(s);
      Slice(mem, len, index, ItemReturn(s).consumed);
    }
  }

  /** Under the storage assumption nothing but the buffer counts. */
  lemma {:induction false} SlicesOfRest(mem: Text, len: nat, index: nat)
    requires index <= len <= |mem|
    ensures Slices(mem, index, Segments(Rest(mem, len, index))) == Segments(Rest(mem, len, index))
    decreases len - index
  {
    hide Segments, ItemReturn, Rest, Slices;
    SlicesNone(mem, index);
    if index == len {
      NothingLeft(mem, len);
    } else {
      RestRound(mem, len, index);
      var n := ItemReturn(Rest(mem, len, index)).consumed;
      if ItemReturn(Rest(mem, len, index)).verdict == Completed {
        SlicesFirst(mem, index, n, mem[index..index + n], Segments(Rest(mem, len, index + n)));
        SlicesOfRest(mem, len, index + n);
      }
    }
  }

  lemma NothingLeft(mem: Text, len: nat)
    requires len <= |mem|
    ensures Segments(Rest(mem, len, len)) == []
  {
  }

  lemma {:induction false} FirstOpenAppend(s: Text, x: Text)
    requires HasOpen(s)
    ensures FirstOpen(s + x) == FirstOpen(s)
  {
    hide Next;
    NextStable(s, x);
    var n := Next(s).length;
    if !Next(s).opens {
      FirstOpenAppend(s[n..], x);
      assert (s + x)[n..] == s[n..] + x;
    }
  }

  /** The result is that of the buffer alone exactly when the scan reaches the end of the buffer, or
      the bytes beyond do not finish the item in which it stops and do not turn it into an
      error, or an array was opened before it. */
  lemma OverrunExactly(mem: Text, len: nat, index: nat)
    requires len + 2 <= |mem| && index < len
    ensures var s := Rest(mem, len, index);
            Resp(Seen(mem, len, index)) == Resp(s)
            <==> Complete(s) || (Left(s) != [] && var next := Next(Left(s) + Beyond(mem, len));
                                 next.Stuck? && (next == Next(Left(s)) || HasOpen(s)))
  {
    hide Next, Beyond;
    var s, x := Rest(mem, len, index), Beyond(mem, len);
    if !Complete(s) {
      CompleteEnd(s);
      LeftIsStuck(s);
      ScanAppend(s, x);
      var u := Left(s);
      if Next(u + x).Token? {
        LeftOfRest(mem, len, index);
        BeyondToTheEnd(mem, len, index + FlatEnd(s));
        assert (u + x)[|u + x|..] == [];
      } else if HasOpen(s) {
        FirstOpenAppend(s, x);
      }
    }
  }

  /** It does happen: any simple string, error or integer that has no end in the buffer is completed
      by a line feed at distance 1, and one that has its carriage return by a line feed behind it. */
  lemma OverrunChanges(mem: Text, len: nat)
    requires 0 < len && len + 2 <= |mem| && IsLineType(mem[0]) && NoCr(mem[..len - 1])
    requires if mem[len - 1] == CR then mem[len] == LF else mem[len + 1] == LF
    ensures Resp(Rest(mem, len, 0)) == ParseReturn(0, Incompleted)
    ensures Resp(Seen(mem, len, 0)) == ParseReturn(if mem[len - 1] == CR then len + 1 else len + 2, Completed)
  {
    var s, w := Rest(mem, len, 0), Wide(mem, len, 0);
    var q := if mem[len - 1] == CR then len - 1 else len;
    assert s[0] == mem[0];
    forall k | 0 <= k < q ensures s[k] != CR {
      if k < len - 1 {
        assert s[k] == mem[..len - 1][k];
      }
    }
    CrIndexUnique(s, q);
    assert w[..q] == s[..q];
    CrIndexUnique(w, q);
    assert Next(s) == Stuck(Incompleted) && Next(w) == Token(q + 2, false);
    assert w[q + 2..] == [] && |w| == q + 2;
    assert FlatVerdict([]) == Completed;
    assert Complete(w) && !Complete(s) && Seen(mem, len, 0) == w;
    assert !HasOpen(s) && FlatEnd(s) == 0;
  }

  lemma LeftOfRest(mem: Text, len: nat, index: nat)
    requires len + 2 <= |mem| && index < len
    ensures var s := Rest(mem, len, index);
            Left(s) == Rest(mem, len, index + FlatEnd(s))
  {
    hide FlatEnd;
  }
}
