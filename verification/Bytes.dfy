/** Bytes, the constants of the RESP2 wire format, and concatenation of byte strings. */
module Bytes {

  newtype Byte = b: int | 0 <= b < 256

  type Text = seq<Byte>

  datatype Option<+T> = None | Some(value: T)

  const CR: Byte := 13
  const LF: Byte := 10
  const PLUS: Byte := 43    // '+', a simple string
  const MINUS: Byte := 45   // '-', an error
  const COLON: Byte := 58   // ':', an integer
  const DOLLAR: Byte := 36  // '$', a bulk string
  const STAR: Byte := 42    // '*', an array

  const CRLF: Text := [CR, LF]

  predicate NoCr(t: Text) {
    CR !in t
  }

  function Concat<T>(parts: seq<seq<T>>): seq<T> {
    if parts == [] then [] else parts[0] + Concat(parts[1..])
  }

  lemma {:induction false} ConcatAppend<T>(a: seq<seq<T>>, b: seq<seq<T>>)
    ensures Concat(a + b) == Concat(a) + Concat(b)
  {
    if a == [] {
      assert a + b == b;
    } else {
      assert (a + b)[1..] == a[1..] + b;
      ConcatAppend(a[1..], b);
    }
  }

  lemma PlusAssociates<T>(a: seq<T>, b: seq<T>, c: seq<T>)
    ensures (a + b) + c == a + (b + c)
  {
  }

  lemma ConcatCons<T>(t: seq<T>, parts: seq<seq<T>>)
    ensures Concat([t] + parts) == t + Concat(parts)
  {
    assert ([t] + parts)[1..] == parts;
  }

  lemma ConcatOne<T>(t: seq<T>)
    ensures Concat([t]) == t
  {
    assert [t][1..] == [];
  }
}
