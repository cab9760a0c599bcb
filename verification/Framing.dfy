/** What the framer of `src/resp_parser.cpp` does, without its recursion: one flat scan.

    `Next` reads one item. `FlatEnd`, `FlatVerdict` scan items to the end of the text and never
    look inside arrays; `Resp` and `Segments` say what `process_resp` returns and reports. */
module Framing {
  import opened Bytes
  import Numbers

  datatype Verdict = Completed | Incompleted | Error

  /** What one `process_*` function returns. */
  datatype ParseReturn = ParseReturn(consumed: nat, verdict: Verdict)

  /** One item: a token (`opens` for an array header with a positive count), or no token. */
  datatype Step = Token(length: nat, opens: bool) | Stuck(verdict: Verdict)

  /** The first carriage return, or the end of the text. */
  function CrIndex(s: Text): (p: nat)
    ensures p <= |s| && NoCr(s[..p])
    ensures p < |s| ==> s[p] == CR
  {
    if s == [] || s[0] == CR then 0 else 1 + CrIndex(s[1..])
  }

  lemma {:induction false} CrIndexUnique(s: Text, p: nat)
    requires p <= |s| && NoCr(s[..p]) && (p < |s| ==> s[p] == CR)
    ensures CrIndex(s) == p
  {
    if p != 0 {
      assert s[0] in s[..p];
      assert s[1..][..p - 1] == s[..p][1..];
      CrIndexUnique(s[1..], p - 1);
    }
  }

  /** Where the line starting here ends: its first carriage return, if a line feed follows. */
  function LineEnd(s: Text): (r: Option<nat>)
    ensures r.Some? ==> r.value + 1 < |s| && s[r.value] == CR && s[r.value + 1] == LF && NoCr(s[..r.value])
  {
    var p := CrIndex(s);
    if p + 1 < |s| && s[p + 1] == LF then Some(p) else None
  }

  predicate IsLineType(b: Byte) {
    b == PLUS || b == MINUS || b == COLON
  }

  function NextBulk(s: Text, p: nat): (r: Step)
    requires LineEnd(s) == Some(p) && 0 < p
    ensures r.Token? ==> 3 <= r.length <= |s| && !r.opens
    ensures r.Stuck? ==> r.verdict != Completed
  {
    match Numbers.Stoi(s[1..p])
    case None => Stuck(Error)
    case Some(n) =>
      if n == -1 then Token(p + 2, false)
      else if n < 0 then Stuck(Error)
      else match LineEnd(s[p + 2..])
           case Some(q) => Token(p + 2 + q + 2, false)
           case None => Stuck(Incompleted)
  }

  function NextHeader(s: Text, p: nat): (r: Step)
    requires LineEnd(s) == Some(p) && 0 < p
    ensures r.Token? ==> 3 <= r.length <= |s|
    ensures r.Token? && r.opens ==> 4 <= r.length
    ensures r.Stuck? ==> r.verdict != Completed
  {
    match Numbers.Stoi(s[1..p])
    case None => Stuck(Error)
    case Some(n) =>
      Numbers.StoiNeedsText(s[1..p]);
      if n < -1 then Stuck(Error) else Token(p + 2, n > 0)
  }

  /** One item at the front of a non-empty text. */
  function Next(s: Text): (r: Step)
    requires s != []
    ensures r.Token? ==> 3 <= r.length <= |s|
    ensures r.Token? && r.opens ==> 4 <= r.length
    ensures r.Stuck? ==> r.verdict != Completed
  {
    if IsLineType(s[0]) || s[0] == DOLLAR || s[0] == STAR then
      match LineEnd(s)
      case None => Stuck(Incompleted)
      case Some(p) =>
        if s[0] == DOLLAR then NextBulk(s, p)
        else if s[0] == STAR then NextHeader(s, p)
        else Token(p + 2, false)
    else Stuck(Error)
  }

  /** How far the flat scan gets. */
  function FlatEnd(s: Text): (e: nat)
    ensures e <= |s|
  {
    if s == [] then 0
    else match Next(s)
         case Token(n, _) => n + FlatEnd(s[n..])
         case Stuck(_) => 0
  }

  /** `Completed` when the scan reaches the end, otherwise the failing item's own verdict. */
  function FlatVerdict(s: Text): Verdict {
    if s == [] then Completed
    else match Next(s)
         case Token(n, _) => FlatVerdict(s[n..])
         case Stuck(v) => v
  }

  predicate Complete(s: Text) {
    FlatVerdict(s) == Completed
  }

  /** The tokens that the scan passes. */
  function Tokens(s: Text): seq<Text> {
    if s == [] then []
    else match Next(s)
         case Token(n, _) => [s[..n]] + Tokens(s[n..])
         case Stuck(_) => []
  }

  /** Whether the scan passes a positive-count array header. */
  predicate HasOpen(s: Text) {
    s != [] && match Next(s)
               case Token(n, opens) => opens || HasOpen(s[n..])
               case Stuck(_) => false
  }

  function OpenCount(s: Text): nat {
    if s == [] then 0
    else match Next(s)
         case Token(n, opens) => (if opens then 1 else 0) + OpenCount(s[n..])
         case Stuck(_) => 0
  }

  /** Where the scan meets the first such header, or where it ends without one. */
  function FirstOpen(s: Text): (e: nat)
    ensures e <= FlatEnd(s)
  {
    if s == [] then 0
    else match Next(s)
         case Token(n, opens) => if opens then 0 else n + FirstOpen(s[n..])
         case Stuck(_) => 0
  }

  /** What `process_resp` returns. */
  function Resp(s: Text): (r: ParseReturn)
    ensures r.consumed <= |s|
  {
    if Complete(s) then ParseReturn(|s|, Completed)
    else if HasOpen(s) then ParseReturn(FirstOpen(s), Error)
    else ParseReturn(FlatEnd(s), FlatVerdict(s))
  }

  /** The texts that `process_resp` hands to its callback: each token up to the first
      positive-count header, and then everything from that header on as one text, but only
      if the scan reaches the end. */
  function Segments(s: Text): seq<Text> {
    if s == [] then []
    else match Next(s)
         case Stuck(_) => []
         case Token(n, opens) =>
           if opens then (if Complete(s) then [s] else [])
           else [s[..n]] + Segments(s[n..])
  }

  /** The item parses of one call, counting the failing one. */
  function Parses(s: Text): nat {
    |Tokens(s)| + if Complete(s) then 0 else 1
  }

  function Max(a: nat, b: nat): nat {
    if a < b then b else a
  }

  /** What one round of the loop of `process_resp` gets for the item in front. */
  function ItemReturn(s: Text): (r: ParseReturn)
    requires s != []
    ensures r.consumed <= |s|
  {
    match Next(s)
    case Stuck(v) => ParseReturn(0, v)
    case Token(n, opens) =>
      if !opens then ParseReturn(n, Completed)
      else if Complete(s) then ParseReturn(|s|, Completed)
      else ParseReturn(0, Error)
  }

  function ItemParses(s: Text): nat
    requires s != []
  {
    match Next(s)
    case Stuck(_) => 1
    case Token(_, opens) => if opens then Parses(s) else 1
  }

  /** The count in an opening header. */
  function OpenedCount(s: Text): (c: nat)
    requires s != [] && Next(s).Token? && Next(s).opens
  {
    Numbers.Stoi(s[1..LineEnd(s).value]).value
  }

  /** The calls of `process_resp` that one call makes, itself included: one for every element that
      an opened array announces when the scan reaches the end, otherwise one for each array. */
  function Calls(s: Text): (c: nat)
    ensures c > 0
  {
    if s == [] then 1
    else match Next(s)
         case Stuck(_) => 1
         case Token(n, opens) =>
           if !opens then Calls(s[n..]) else Calls(s[n..]) + if Complete(s) then OpenedCount(s) else 1
  }

  function ItemCalls(s: Text): nat
    requires s != []
  {
    match Next(s)
    case Stuck(_) => 0
    case Token(n, opens) => if opens then Calls(s) - 1 else 0
  }

  /** The counts of all opened arrays. */
  function CountSum(s: Text): nat {
    if s == [] then 0
    else match Next(s)
         case Stuck(_) => 0
         case Token(n, opens) => (if opens then OpenedCount(s) else 0) + CountSum(s[n..])
  }

  function ItemDepth(s: Text): nat
    requires s != []
  {
    match Next(s)
    case Stuck(_) => 0
    case Token(_, opens) => if opens then OpenCount(s) else 0
  }

  /** One round of the loop, on the flat scan. */
  lemma RespRound(t: Text)
    requires t != []
    ensures var r := ItemReturn(t);
            if r.verdict == Completed then
              && Resp(t) == ParseReturn(r.consumed + Resp(t[r.consumed..]).consumed, Resp(t[r.consumed..]).verdict)
              && Segments(t) == [t[..r.consumed]] + Segments(t[r.consumed..])
              && Parses(t) == ItemParses(t) + Parses(t[r.consumed..])
              && OpenCount(t) == Max(ItemDepth(t), OpenCount(t[r.consumed..]))
              && Calls(t) == ItemCalls(t) + Calls(t[r.consumed..])
            else
              && Resp(t) == ParseReturn(0, r.verdict)
              && Segments(t) == []
              && Parses(t) == ItemParses(t)
              && OpenCount(t) == ItemDepth(t)
              && Calls(t) == 1 + ItemCalls(t)
  {
    hide Next, OpenedCount;
    match Next(t)
    case Stuck(v) =>
    case Token(n, opens) =>
      if opens && Complete(t) {
        assert t[|t|..] == [] && t[..|t|] == t;
      }
  }

  /** Despite the recursion the items parsed in one call and the nesting of `process_resp` are
      bounded by the length. */
  lemma {:induction false} WorkBound(s: Text)
    ensures 3 * |Tokens(s)| <= FlatEnd(s) && Parses(s) <= |s| / 3 + 1
    ensures 4 * OpenCount(s) <= |s| && 1 + OpenCount(s) <= |s| / 4 + 1
  {
    hide Next;
    if s != [] && Next(s).Token? {
      WorkBound(s[Next(s).length..]);
    }
  }

  /** The number of calls is not: behind the first element the loop over the declared count calls
      `process_resp` at the end of the buffer. */
  lemma {:induction false} CallsExactly(s: Text)
    ensures Calls(s) == 1 + if Complete(s) then CountSum(s) else OpenCount(s)
  {
    hide Next, OpenedCount;
    if s != [] && Next(s).Token? {
      CallsExactly(s[Next(s).length..]);
    }
  }
}
