/** Lowercase hexadecimal, and Node's lenient reading of it. */
module Hex {
  import opened Bytes
  import opened JsStrings
  import Lexicographic

  type nibble = x: int | 0 <= x < 16

  function Digit(n: nibble): Unit {
    if n < 10 then 0x30 + n else 0x61 + (n - 10)
  }

  predicate IsLowerDigit(u: Unit) {
    0x30 <= u <= 0x39 || 0x61 <= u <= 0x66
  }

  /** Node reads upper-case digits too. */
  function Value(u: Unit): Option<nibble> {
    if 0x30 <= u <= 0x39 then Some(u - 0x30)
    else if 0x61 <= u <= 0x66 then Some(u - 0x61 + 10)
    else if 0x41 <= u <= 0x46 then Some(u - 0x41 + 10)
    else None
  }

  function ToHex(b: Bytes): JsString {
    if b == [] then [] else [Digit(b[0] / 16), Digit(b[0] % 16)] + ToHex(b[1..])
  }

  /** Buffer.from(s, 'hex'): reading stops at the first pair that is not two digits. */
  function FromHex(s: JsString): Bytes
    decreases |s|
  {
    if |s| < 2 || Value(s[0]).None? || Value(s[1]).None? then []
    else [16 * Value(s[0]).value + Value(s[1]).value] + FromHex(s[2..])
  }

  /** The pattern /^[0-9a-f]{64}$/. */
  predicate IsHex64(s: JsString) {
    |s| == 64 && AllLower(s)
  }

  predicate AllLower(s: JsString) {
    forall i :: 0 <= i < |s| ==> IsLowerDigit(s[i])
  }

  lemma {:induction false} ToHexShape(b: Bytes)
    ensures |ToHex(b)| == 2 * |b| && AllLower(ToHex(b))
  {
    if b != [] {
      ToHexShape(b[1..]);
    }
  }

  lemma {:induction false} HexRoundTrip(b: Bytes)
    ensures FromHex(ToHex(b)) == b
  {
    if b != [] {
      var s := ToHex(b);
      assert s[2..] == ToHex(b[1..]);
      HexRoundTrip(b[1..]);
      assert b == [b[0]] + b[1..];
    }
  }

  /** Strict hexadecimal is recovered from the bytes it is read as. */
  lemma {:induction false} StrictRoundTrip(s: JsString)
    requires |s| % 2 == 0 && AllLower(s)
    ensures ToHex(FromHex(s)) == s && 2 * |FromHex(s)| == |s|
    decreases |s|
  {
    if s == [] {
      assert FromHex(s) == [] && ToHex([]) == [];
    } else {
      assert IsLowerDigit(s[0]) && IsLowerDigit(s[1]) && AllLower(s[2..]);
      hide ToHex, FromHex, IsLowerDigit;
      StrictRoundTrip(s[2..]);
      PairRoundTrip(s[0], s[1], s[2..], FromHex(s[2..]));
      assert s == [s[0], s[1]] + s[2..];
    }
  }

  /** Two digits are read as one byte, which is written as the two digits. */
  lemma PairRoundTrip(x: Unit, y: Unit, rest: JsString, bytes: Bytes)
    requires IsLowerDigit(x) && IsLowerDigit(y) && FromHex(rest) == bytes
    ensures exists v: byte :: FromHex([x, y] + rest) == [v] + bytes && ToHex([v] + bytes) == [x, y] + ToHex(bytes)
  {
    var v: byte := 16 * Value(x).value + Value(y).value;
    assert ([x, y] + rest)[2..] == rest && ([v] + bytes)[1..] == bytes;
    assert FromHex([x, y] + rest) == [v] + bytes;
    assert Digit(v / 16) == x && Digit(v % 16) == y;
    assert ToHex([v] + bytes) == [x, y] + ToHex(bytes);
  }

  /** Comparing hexadecimal strings compares the bytes. */
  lemma {:induction false} HexOrder(a: Bytes, b: Bytes)
    ensures Lexicographic.Less(ToHex(a), ToHex(b)) == Lexicographic.Less(a, b)
    decreases |a|
  {
    if a != [] && b != [] {
      var s, t := ToHex(a), ToHex(b);
      assert s[1..][1..] == ToHex(a[1..]) && t[1..][1..] == ToHex(b[1..]);
      assert s[1..][0] == Digit(a[0] % 16) && t[1..][0] == Digit(b[0] % 16);
      DigitOrder(a[0] / 16, b[0] / 16);
      DigitOrder(a[0] % 16, b[0] % 16);
      HexOrder(a[1..], b[1..]);
    }
  }

  lemma DigitOrder(m: nibble, n: nibble)
    ensures Digit(m) < Digit(n) <==> m < n
    ensures Digit(m) == Digit(n) <==> m == n
  {
  }

  /** The sixteen digits, in lower case. */
  lemma DigitsAre(n: nibble)
    ensures Digit(n) == Lit("0123456789abcdef")[n]
  {
    assert Lit("0123456789abcdef")[n] == "0123456789abcdef"[n] as int;
    assert n < 10 ==> "0123456789"[n] == "0123456789abcdef"[n];
  }

  /** A digit in either case. */
  predicate IsDigitOfSomeCase(u: Unit) {
    48 <= u <= 57 || 65 <= u <= 70 || 97 <= u <= 102
  }

  lemma PairReads(v: byte, x: Unit, y: Unit, rest: JsString)
    requires Value(x) == Some(v / 16) && Value(y) == Some(v % 16)
    ensures FromHex([x, y] + rest) == [v] + FromHex(rest)
  {
    hide Value;
    var s := [x, y] + rest;
    assert s[0] == x && s[1] == y && s[2..] == rest;
  }

  lemma DigitValue(n: nibble)
    ensures Value(Digit(n)) == Some(n) && Value(UpperUnit(Digit(n))) == Some(n)
  {
  }

  /** Reading stops where two digits are not next, and what was read stays. */
  lemma {:induction false} ReadingStops(b: Bytes, rest: JsString)
    requires |rest| < 2 || !IsDigitOfSomeCase(rest[0]) || !IsDigitOfSomeCase(rest[1])
    ensures FromHex(ToHex(b) + rest) == b
    decreases |b|
  {
    hide Digit, Value, IsDigitOfSomeCase;
    if b == [] {
      assert ToHex(b) + rest == rest;
      NothingRead(rest);
    } else {
      var x, y := Digit(b[0] / 16), Digit(b[0] % 16);
      assert ToHex(b) + rest == [x, y] + (ToHex(b[1..]) + rest);
      ReadingStops(b[1..], rest);
      DigitValue(b[0] / 16);
      DigitValue(b[0] % 16);
      PairReads(b[0], x, y, ToHex(b[1..]) + rest);
      assert b == [b[0]] + b[1..];
    }
  }

  lemma NothingRead(rest: JsString)
    requires |rest| < 2 || !IsDigitOfSomeCase(rest[0]) || !IsDigitOfSomeCase(rest[1])
    ensures FromHex(rest) == []
  {
  }

  function UpperUnit(u: Unit): Unit {
    if 97 <= u <= 122 then u - 32 else u
  }

  function UpperCase(s: JsString): JsString {
    if s == [] then [] else [UpperUnit(s[0])] + UpperCase(s[1..])
  }

  lemma UpperPair(x: Unit, y: Unit, rest: JsString)
    ensures UpperCase([x, y] + rest) == [UpperUnit(x), UpperUnit(y)] + UpperCase(rest)
  {
    hide UpperUnit;
    var s := [x, y] + rest;
    assert s[0] == x && s[1..] == [y] + rest && s[1..][0] == y && s[1..][1..] == rest;
  }

  /** Upper-case hexadecimal is read like lower-case. */
  lemma {:induction false} UpperCaseReads(b: Bytes)
    ensures FromHex(UpperCase(ToHex(b))) == b
    decreases |b|
  {
    hide Digit, Value, UpperUnit;
    if b != [] {
      var x, y := Digit(b[0] / 16), Digit(b[0] % 16);
      UpperCaseReads(b[1..]);
      DigitValue(b[0] / 16);
      DigitValue(b[0] % 16);
      UpperPair(x, y, ToHex(b[1..]));
      PairReads(b[0], UpperUnit(x), UpperUnit(y), UpperCase(ToHex(b[1..])));
      assert b == [b[0]] + b[1..];
    }
  }
}
