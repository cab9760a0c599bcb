/** `std::stoi` in base 10, as the framer calls it on the text of a length header. */
module Numbers {
  import opened Bytes

  const INT_MIN: int := -0x8000_0000
  const INT_MAX: int := 0x7fff_ffff

  predicate InInt32(v: int) {
    INT_MIN <= v <= INT_MAX
  }

  /** `isspace` in the "C" locale. */
  predicate IsSpace(b: Byte) {
    b == 32 || 9 <= b <= 13
  }

  predicate IsDigit(b: Byte) {
    48 <= b <= 57
  }

  predicate AllSpaces(t: Text) {
    forall k :: 0 <= k < |t| ==> IsSpace(t[k])
  }

  predicate AllDigits(t: Text) {
    forall k :: 0 <= k < |t| ==> IsDigit(t[k])
  }

  function SkipSpaces(t: Text): Text {
    if t != [] && IsSpace(t[0]) then SkipSpaces(t[1..]) else t
  }

  function DigitRun(t: Text): (r: Text)
    ensures AllDigits(r)
  {
    if t != [] && IsDigit(t[0]) then [t[0]] + DigitRun(t[1..]) else []
  }

  function Value(d: Text): nat
    requires AllDigits(d)
  {
    if d == [] then 0 else 10 * Value(d[..|d| - 1]) + (d[|d| - 1] - 48) as nat
  }

  function Signed(negative: bool, v: nat): int {
    if negative then 0 - v else v
  }

  function Fit(v: int): Option<int> {
    if InInt32(v) then Some(v) else None
  }

  /** The value, or `None` where `std::stoi` throws (`invalid_argument` for no digits,
      `out_of_range` outside a 32-bit `int`). */
  function Stoi(t: Text): Option<int> {
    var u := SkipSpaces(t);
    var negative := u != [] && u[0] == MINUS;
    var d := DigitRun(if u != [] && (u[0] == MINUS || u[0] == PLUS) then u[1..] else u);
    if d == [] then None
    else Fit(Signed(negative, Value(d)))
  }

  lemma StoiNeedsText(t: Text)
    ensures Stoi(t).Some? ==> t != []
  {
  }

  /** The decimal text of a number, most significant digit first. */
  function DecimalNat(n: nat): (t: Text)
    ensures t != [] && AllDigits(t)
  {
    var last := [(48 + n % 10) as Byte];
    if n < 10 then last else DecimalNat(n / 10) + last
  }

  function Decimal(n: int): Text {
    if n < 0 then [MINUS] + DecimalNat(-n) else DecimalNat(n)
  }

  lemma {:induction false} SkipSpacesExact(ws: Text, u: Text)
    requires AllSpaces(ws)
    requires u == [] || !IsSpace(u[0])
    ensures SkipSpaces(ws + u) == u
  {
    if ws == [] {
      assert ws + u == u;
    } else {
      assert (ws + u)[1..] == ws[1..] + u;
      SkipSpacesExact(ws[1..], u);
    }
  }

  lemma {:induction false} DigitRunExact(d: Text, junk: Text)
    requires AllDigits(d)
    requires junk == [] || !IsDigit(junk[0])
    ensures DigitRun(d + junk) == d
  {
    if d == [] {
      assert d + junk == junk;
    } else {
      assert (d + junk)[1..] == d[1..] + junk;
      DigitRunExact(d[1..], junk);
    }
  }

  /** `stoi` on every text with a number in it: any white space, an optional sign, digits,
      and any junk behind them; the number is the signed value of exactly those digits. */
  lemma StoiReadsNumber(ws: Text, sign: Text, d: Text, junk: Text)
    requires AllSpaces(ws)
    requires sign == [] || sign == [PLUS] || sign == [MINUS]
    requires d != [] && AllDigits(d)
    requires junk == [] || !IsDigit(junk[0])
    ensures Stoi(ws + sign + d + junk) == Fit(Signed(sign == [MINUS], Value(d)))
  {
    hide Value, Fit;
    var u := sign + (d + junk);
    assert ws + sign + d + junk == ws + u;
    assert u[0] == if sign == [] then d[0] else sign[0];
    SkipSpacesExact(ws, u);
    DigitRunExact(d, junk);
    if sign == [] {
      assert u == d + junk;
    } else {
      assert u[1..] == d + junk;
    }
  }

  /** `stoi` throws on every other text: white space and an optional sign, no digit behind. */
  lemma StoiRejectsNoNumber(ws: Text, sign: Text, junk: Text)
    requires AllSpaces(ws)
    requires sign == [] || sign == [PLUS] || sign == [MINUS]
    requires junk == [] || !IsDigit(junk[0])
    requires sign == [] && junk != [] ==> !IsSpace(junk[0]) && junk[0] != PLUS && junk[0] != MINUS
    ensures Stoi(ws + sign + junk) == None
  {
    var u := sign + junk;
    assert ws + sign + junk == ws + u;
    SkipSpacesExact(ws, u);
    assert sign == [] ==> u == junk;
    assert sign != [] ==> u[1..] == junk;
  }

  lemma {:induction false} DecimalNatValue(n: nat)
    ensures Value(DecimalNat(n)) == n
  {
    var t := DecimalNat(n);
    if n < 10 {
      assert t[..|t| - 1] == [];
    } else {
      assert t[..|t| - 1] == DecimalNat(n / 10);
      DecimalNatValue(n / 10);
    }
  }

  lemma {:induction false} DigitsHaveNoCr(d: Text)
    requires AllDigits(d)
    ensures NoCr(d) && NoCr([MINUS] + d)
  {
  }

  /** Printing a number and reading it back gives the number exactly when it fits a 32-bit
      `int`; any other number is an error, never a wrapped length. */
  lemma StoiDecimal(n: int)
    ensures Stoi(Decimal(n)) == Fit(n)
    ensures Stoi(Decimal(n)) == if -2147483648 <= n <= 2147483647 then Some(n) else None
    ensures NoCr(Decimal(n))
  {
    hide Stoi, Value;
    var m: nat := if n < 0 then -n else n;
    var d := DecimalNat(m);
    DecimalNatValue(m);
    DigitsHaveNoCr(d);
    var sign := if n < 0 then [MINUS] else [];
    StoiReadsNumber([], sign, d, []);
    assert [] + sign + d + [] == Decimal(n);
  }
}
